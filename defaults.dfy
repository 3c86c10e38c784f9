/** The built-in checklist (lib/defaults.ts): activity, diet and
    medication, fifteen items, all required. */
module Defaults {
  import opened Types
  import opened Utils

  const DefaultTemplate: Template := Template([
    TemplateSection("Activitate", [
      TemplateItem("a1", "≥30 min activitate aerobă (mers alert/jog/ciclat/înot)", true),
      TemplateItem("a2", "7–10k pași astăzi", true),
      TemplateItem("a3", "2–3 plimbări de 5 min după mese", true),
      TemplateItem("a4", "Antrenament de forță (genuflexiuni/flotări/fandări)", true)
    ], Some(3)),
    TemplateSection("Dietă", [
      TemplateItem("d1", "Fără băuturi dulci și dulciuri", true),
      TemplateItem("d2", "Fără făină/orez alb (doar integrale)", true),
      TemplateItem("d3", "Fără prăjeli/margarină; gătesc la cuptor sau abur (Airfryer)", true),
      TemplateItem("d4", "Ulei puțin și bun (măsline/rapiță)", true),
      TemplateItem("d5", "Legume ≥4 porții (½ farfurie)", true),
      TemplateItem("d6", "Fructe 1–2 porții (nu suc)", true),
      TemplateItem("d7", "≥1 porție pește azi sau săptămâna asta", true),
      TemplateItem("d8", "Apă ≥1,5 L", true),
      TemplateItem("d9", "Fibre ≥25 g", true),
      TemplateItem("d10", "Alcool: 0", true)
    ], Some(8)),
    TemplateSection("Medicație", [
      TemplateItem("m1", "Medicație conform prescripției", true)
    ], Some(1))
  ])

  /** Every item id of the template, section by section. */
  function ItemIds(sections: seq<TemplateSection>): seq<string>
  {
    if sections == [] then []
    else seq(|sections[0].items|, j requires 0 <= j < |sections[0].items| => sections[0].items[j].id) + ItemIds(sections[1..])
  }

  ghost predicate Distinct<T>(s: seq<T>) {
    forall i, j :: 0 <= i < j < |s| ==> s[i] != s[j]
  }

  /** Three sections with distinct names, in the order shown. */
  lemma DefaultSections()
    ensures |DefaultTemplate.sections| == 3
    ensures DefaultTemplate.sections[0].name == "Activitate"
    ensures DefaultTemplate.sections[1].name == "Dietă"
    ensures DefaultTemplate.sections[2].name == "Medicație"
    ensures Distinct(seq(3, k requires 0 <= k < 3 => DefaultTemplate.sections[k].name))
  {
  }

  /** Item ids a1-a4, d1-d10, m1: fifteen ids, no two alike. */
  lemma DefaultItemIds()
    ensures ItemIds(DefaultTemplate.sections)
         == ["a1", "a2", "a3", "a4", "d1", "d2", "d3", "d4", "d5", "d6", "d7", "d8", "d9", "d10", "m1"]
    ensures Distinct(ItemIds(DefaultTemplate.sections))
  {
    var s := DefaultTemplate.sections;
    assert ItemIds(s[2..]) == ["m1"] by {
      assert s[2..][1..] == [];
    }
    assert ItemIds(s[1..]) == ["d1", "d2", "d3", "d4", "d5", "d6", "d7", "d8", "d9", "d10", "m1"] by {
      assert s[1..][1..] == s[2..];
    }
    DefaultIdListDistinct();
  }

  /** The fifteen ids differ pairwise in their first letter, their length or
      their second character. */
  lemma DefaultIdListDistinct()
    ensures Distinct(["a1", "a2", "a3", "a4", "d1", "d2", "d3", "d4", "d5", "d6", "d7", "d8", "d9", "d10", "m1"])
  {
    var ids := ["a1", "a2", "a3", "a4", "d1", "d2", "d3", "d4", "d5", "d6", "d7", "d8", "d9", "d10", "m1"];
    forall i, j | 0 <= i < j < |ids| ensures ids[i] != ids[j] {
      assert ids[i][0] != ids[j][0] || |ids[i]| != |ids[j]| || ids[i][1] != ids[j][1];
    }
  }

  /** Every item is required, and every section's minimum is positive and
      at most its item count (3 of 4, 8 of 10, 1 of 1). */
  lemma DefaultMinimumsReachable()
    ensures forall k, j :: 0 <= k < 3 && 0 <= j < |DefaultTemplate.sections[k].items| ==> DefaultTemplate.sections[k].items[j].required
    ensures forall k :: 0 <= k < 3 ==>
      0 < MinRequired(DefaultTemplate.sections[k]) <= |DefaultTemplate.sections[k].items|
    ensures MinRequired(DefaultTemplate.sections[0]) == 3
    ensures MinRequired(DefaultTemplate.sections[1]) == 8
    ensures MinRequired(DefaultTemplate.sections[2]) == 1
  {
  }

  /** Fifteen items, so a day under the default template is scored out of 17. */
  lemma DefaultScoreDenominator()
    ensures TotalItems(DefaultTemplate) == 15
    ensures MaxPoints(DefaultTemplate) == 17
  {
    var s := DefaultTemplate.sections;
    assert s[1..][1..] == s[2..];
    assert s[2..][1..] == [];
  }
}
