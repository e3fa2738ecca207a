/** The medical-question gate: a case-insensitive substring test against a
    fixed keyword list, with no word boundaries. */
module Policy {

  import opened Text

  const MedicalKeywords: seq<string> := [
    "antibiotic", "antibiotics", "amoxicillin", "penicillin", "clindamycin",
    "medicine", "medication", "dose", "dosage", "should i",
    "ibuprofen", "painkiller", "prescription"
  ]

  /** `is_medical_or_medication_question`: some keyword occurs anywhere in
      the lower-cased text. */
  function IsMedical(text: string): (r: bool)
    ensures r <==> exists i :: 0 <= i < |MedicalKeywords| && Contains(LowerStr(text), MedicalKeywords[i])
  {
    ContainsAny(LowerStr(text), MedicalKeywords)
  }

  /** The gate ignores case: a text and its lower-cased form are judged
      alike. */
  lemma MedicalIgnoresCase(text: string)
    ensures IsMedical(LowerStr(text)) == IsMedical(text)
  {
    LowerIdempotent(text);
  }

  /** A keyword hit inside `part` is a keyword hit in every text that
      contains `part`. */
  lemma {:induction false} ContainsAnyInfix(t: string, part: string, ks: seq<string>)
    requires Contains(t, part) && ContainsAny(part, ks)
    ensures ContainsAny(t, ks)
  {
    var i :| 0 <= i < |ks| && Contains(part, ks[i]);
    ContainsTrans(t, part, ks[i]);
  }

  /** Lower-casing keeps containment. */
  lemma {:induction false} LowerInfix(text: string, part: string)
    requires Contains(text, part)
    ensures Contains(LowerStr(text), LowerStr(part))
  {
    var at := Find(text, part);
    assert OccursAt(text, part, at);
    var lowered := LowerStr(text);
    LowerSlice(text, at, at + |part|);
    assert OccursAt(lowered, LowerStr(part), at);
    ContainsAt(lowered, LowerStr(part), at);
  }

  /** No word boundaries: any text that contains a flagged text is flagged
      itself, whatever surrounds it. */
  lemma {:induction false} MedicalInfix(text: string, part: string)
    requires Contains(text, part) && IsMedical(part)
    ensures IsMedical(text)
  {
    LowerInfix(text, part);
    ContainsAnyInfix(LowerStr(text), LowerStr(part), MedicalKeywords);
  }

  predicate IsLowerCase(s: string) {
    forall j :: 0 <= j < |s| ==> !('A' <= s[j] <= 'Z')
  }

  lemma LowerOfLowerCase(s: string)
    requires IsLowerCase(s)
    ensures LowerStr(s) == s
  {
  }

  lemma KeywordLowerCase(i: nat)
    requires i < |MedicalKeywords|
    ensures LowerStr(MedicalKeywords[i]) == MedicalKeywords[i]
  {
    assert IsLowerCase(MedicalKeywords[i]);
    LowerOfLowerCase(MedicalKeywords[i]);
  }

  /** A keyword anywhere in a message, with any text around it, flags the
      message: "I need antibiotics for my tooth pain" is flagged through
      "antibiotic", and so is "dosage" through "dose". */
  lemma FlaggedAnywhere(before: string, i: nat, after: string)
    requires i < |MedicalKeywords|
    ensures IsMedical(before + MedicalKeywords[i] + after)
  {
    var k := MedicalKeywords[i];
    var m := before + k + after;
    assert m[|before|..|before| + |k|] == k;
    LowerSlice(m, |before|, |before| + |k|);
    KeywordLowerCase(i);
    ContainsAt(LowerStr(m), k, |before|);
  }
}
