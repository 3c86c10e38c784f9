/** The records of the checklist tracker (lib/types.ts): the checklist
    template, one day's entry, the streak pair and the calendar date that
    the date formatter reads. */
module Types {

  datatype Option<+T> = None | Some(value: T)

  /** One line of the checklist template (`text` holds the TypeScript field `label`,
      a reserved word in Dafny). */
  datatype TemplateItem = TemplateItem(id: string, text: string, required: bool)

  /** A named group of template items; `minRequired` is optional. */
  datatype TemplateSection = TemplateSection(name: string, items: seq<TemplateItem>, minRequired: Option<int>)

  datatype Template = Template(sections: seq<TemplateSection>)

  /** The state of one item on one day; `timestamp` is the opaque ISO text
      stamped when the item was last checked. */
  datatype CheckedItem = CheckedItem(id: string, checked: bool, timestamp: Option<string>)

  /** One section of a day, keyed into the template by name. */
  datatype DailySection = DailySection(sectionName: string, items: seq<CheckedItem>, sectionComplete: bool)

  /** A numeric tracker (fibre in grams, water in litres). */
  datatype Target = Target(value: real, target: real)

  /** One calendar day's record. `date` is a day number: consecutive
      calendar days have consecutive numbers (see Calendar.DayNumber). */
  datatype DailyEntry = DailyEntry(
    date: int,
    sections: seq<DailySection>,
    dayComplete: bool,
    fiber: Option<Target>,
    water: Option<Target>,
    notes: Option<string>)

  datatype Streak = Streak(current: nat, longest: nat)

  /** What a JavaScript Date yields through getFullYear, getMonth (0-based)
      and getDate. */
  datatype CivilDate = CivilDate(year: nat, month: nat, day: nat)
}
