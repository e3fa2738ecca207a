/** `update_collected_from_text`: the three contact heuristics (phone, best
    time, name). Each one fills its field only while the field is unset, so
    nothing already collected is ever overwritten. */
module Extraction {

  import opened Wrappers
  import opened Text
  import opened State

  const MinPhoneDigits := 9
  const TimeWords: seq<string> := ["morning", "afternoon", "evening", "today", "tomorrow", "anytime"]
  const NamePatterns: seq<string> := ["my name is ", "i am ", "i'm "]
  const NameStops: seq<string> := [".", ",", ";", " and "]
  const MinNameLength := 2
  const MaxNameLength := 80

  /** A field either keeps its value or goes from unset to a non-empty value. */
  predicate FillsOnly(before: Option<string>, after: Option<string>) {
    after == before || (Unset(before) && !Unset(after))
  }

  // ---------------------------------------------------------------------------
  // phone

  /** Phone heuristic on the stripped message `text`: every digit and plus
      sign of the message, in order, is taken as the phone number when it
      holds at least nine digits (plus signs not counted) and no phone is
      known yet; otherwise the field is left as it was. */
  function ExtractPhone(phone: Option<string>, text: string): (r: Option<string>)
    ensures r == (if Unset(phone) && DigitCount(text) >= MinPhoneDigits then Some(PhoneChars(text)) else phone)
    ensures r != phone ==> forall i :: 0 <= i < |r.value| ==> IsPhoneChar(r.value[i])
    ensures FillsOnly(phone, r)
  {
    var digits := PhoneChars(text);
    PhoneDigitCount(text);
    if |Without(digits, '+')| >= MinPhoneDigits && Unset(phone) then Some(digits) else phone
  }

  // ---------------------------------------------------------------------------
  // best time

  /** Best-time heuristic on the stripped message `text`: the whole message
      becomes the best time exactly when none is known yet and one of the six
      time words occurs in its lower-cased form. */
  function ExtractBestTime(bestTime: Option<string>, text: string): (r: Option<string>)
    ensures r == (if Unset(bestTime) && exists i :: 0 <= i < |TimeWords| && Contains(LowerStr(text), TimeWords[i])
                  then Some(text) else bestTime)
    ensures FillsOnly(bestTime, r)
  {
    if Unset(bestTime) && ContainsAny(LowerStr(text), TimeWords) then
      TimeHitNonEmpty(text);
      Some(text)
    else bestTime
  }

  /** A message with a time word in it is not empty. */
  lemma TimeHitNonEmpty(text: string)
    requires ContainsAny(LowerStr(text), TimeWords)
    ensures text != []
  {
    assert forall i :: 0 <= i < |TimeWords| ==> |TimeWords[i]| > 0;
    EmptyAvoidsNonEmpty(LowerStr(text), TimeWords);
  }

  /** A keyword hit needs a non-empty text when every keyword is non-empty. */
  lemma EmptyAvoidsNonEmpty(t: string, ks: seq<string>)
    requires forall i :: 0 <= i < |ks| ==> |ks[i]| > 0
    requires ContainsAny(t, ks)
    ensures t != []
  {
    var i :| 0 <= i < |ks| && Contains(t, ks[i]);
    assert OccursAt(t, ks[i], Find(t, ks[i]));
  }

  // ---------------------------------------------------------------------------
  // name

  /** `name.split(stop, 1)[0].strip()` when `stop in name`, else `name`. */
  function CutAt(name: string, stop: string): (r: string)
    ensures |r| <= |name|
    ensures !Contains(name, stop) ==> r == name
    ensures Contains(name, stop) ==> Strip(r) == r && Contains(name[..Find(name, stop)], r)
  {
    if Contains(name, stop) then
      var pre := name[..Find(name, stop)];
      StripIdempotent(pre);
      StripContained(pre);
      Strip(pre)
    else name
  }

  /** When the stop occurs, the cut keeps everything before its first
      occurrence except the whitespace around it: `split(stop, 1)[0].strip()`. */
  lemma CutAtTrimsPrefix(name: string, stop: string)
    requires Contains(name, stop)
    ensures TrimOf(name[..Find(name, stop)], CutAt(name, stop))
  {
    StripTrims(name[..Find(name, stop)]);
  }

  /** Cutting at a non-empty stop leaves a piece of the name that no longer
      contains the stop. */
  lemma CutAtAvoids(name: string, stop: string)
    ensures Contains(name, CutAt(name, stop))
    ensures |stop| > 0 ==> !Contains(CutAt(name, stop), stop)
  {
    if Contains(name, stop) {
      var idx := Find(name, stop);
      var pre := name[..idx];
      SliceContained(name, 0, idx);
      StripContained(pre);
      ContainsTrans(name, pre, Strip(pre));
      if |stop| > 0 {
        PrefixBeforeFirstAvoids(name, stop);
        InfixAvoids(pre, Strip(pre), stop);
      }
    } else {
      SliceContained(name, 0, |name|);
      assert name[0..|name|] == name;
    }
  }

  /** The `for stop in [...]` loop: cut at each stop in list order. */
  function CutAtAll(name: string, stops: seq<string>): (r: string)
    ensures |r| <= |name|
    decreases |stops|
  {
    if stops == [] then name else CutAtAll(CutAt(name, stops[0]), stops[1..])
  }

  /** After the loop the candidate is a piece of the original text and
      contains none of the (non-empty) stops. */
  lemma {:induction false} CutAtAllAvoids(name: string, stops: seq<string>)
    ensures Contains(name, CutAtAll(name, stops))
    ensures forall j :: 0 <= j < |stops| && |stops[j]| > 0 ==> !Contains(CutAtAll(name, stops), stops[j])
    decreases |stops|
  {
    if stops == [] {
      SliceContained(name, 0, |name|);
      assert name[0..|name|] == name;
    } else {
      var first := CutAt(name, stops[0]);
      var r := CutAtAll(first, stops[1..]);
      CutAtAvoids(name, stops[0]);
      CutAtAllAvoids(first, stops[1..]);
      ContainsTrans(name, first, r);
      if |stops[0]| > 0 {
        InfixAvoids(first, r, stops[0]);
      }
      forall j | 1 <= j < |stops| && |stops[j]| > 0
        ensures !Contains(r, stops[j])
      {
        assert stops[j] == stops[1..][j - 1];
      }
    }
  }

  /** Pattern `k` occurs in `t` and no earlier pattern does. */
  predicate FirstPatternAt(t: string, k: nat) {
    && k < |NamePatterns|
    && Contains(t, NamePatterns[k])
    && forall k' :: 0 <= k' < k ==> !Contains(t, NamePatterns[k'])
  }

  /** Where the name candidate starts: just after the first occurrence of
      the first pattern, in list order, that occurs in the lower-cased
      `text`. Later patterns are never consulted once an earlier one occurs. */
  function CandidateStart(text: string): (r: Option<nat>)
    ensures r.Some? ==> r.value <= |text|
    ensures r.None? <==> forall k :: 0 <= k < |NamePatterns| ==> !Contains(LowerStr(text), NamePatterns[k])
    ensures r.Some? ==> exists k: nat :: FirstPatternAt(LowerStr(text), k)
                                    && r.value == Find(LowerStr(text), NamePatterns[k]) + |NamePatterns[k]|
  {
    var t := LowerStr(text);
    match FirstContainedFrom(t, NamePatterns, 0)
    case None => None
    case Some(k) => Some(Find(t, NamePatterns[k]) + |NamePatterns[k]|)
  }

  /** The name candidate: the rest of `text` after the first pattern that
      occurs, stripped and cut at the stops. */
  function FirstPatternCandidate(text: string): (r: Option<string>)
    ensures r.None? <==> forall k :: 0 <= k < |NamePatterns| ==> !Contains(LowerStr(text), NamePatterns[k])
  {
    match CandidateStart(text)
    case None => None
    case Some(at) => Some(CutAtAll(Strip(text[at..]), NameStops))
  }

  /** The rest of `text` from `at`, stripped and cut at the stops, is a
      piece of `text` that avoids every non-empty stop. */
  lemma CandidateFrom(text: string, at: nat, stops: seq<string>)
    requires at <= |text|
    ensures Contains(text, CutAtAll(Strip(text[at..]), stops))
    ensures forall j :: 0 <= j < |stops| && |stops[j]| > 0 ==> !Contains(CutAtAll(Strip(text[at..]), stops), stops[j])
  {
    var rest := text[at..];
    SliceContained(text, at, |text|);
    assert text[at..|text|] == rest;
    StripContained(rest);
    CutAtAllAvoids(Strip(rest), stops);
    ContainsTrans(text, rest, Strip(rest));
    ContainsTrans(text, Strip(rest), CutAtAll(Strip(rest), stops));
  }

  /** The candidate is a piece of the message and contains no stop. */
  lemma CandidateShape(text: string)
    requires FirstPatternCandidate(text).Some?
    ensures Contains(text, FirstPatternCandidate(text).value)
    ensures forall j :: 0 <= j < |NameStops| ==> !Contains(FirstPatternCandidate(text).value, NameStops[j])
  {
    NameStopsNonEmpty();
    CandidateFrom(text, CandidateStart(text).value, NameStops);
  }

  lemma NameStopsNonEmpty()
    ensures forall j :: 0 <= j < |NameStops| ==> |NameStops[j]| > 0
  {
  }

  /** Name heuristic on the stripped message `text`. When the name is
      unset, the first pattern of "my name is ", "i am ", "i'm " (list order)
      that occurs yields a candidate; it is kept, cut to 80 characters, when
      it has at least two characters. A rejected candidate ends the search. */
  function ExtractName(name: Option<string>, text: string): (r: Option<string>)
    ensures !Unset(name) ==> r == name
    ensures FillsOnly(name, r)
    ensures r != name ==> exists k :: 0 <= k < |NamePatterns| && Contains(LowerStr(text), NamePatterns[k])
    ensures r != name ==> MinNameLength <= |r.value| <= MaxNameLength && Contains(text, r.value)
    ensures r != name ==> forall j :: 0 <= j < |NameStops| ==> !Contains(r.value, NameStops[j])
    ensures r != name ==> r.value == Take(FirstPatternCandidate(text).value, MaxNameLength)
    // an unset name is filled exactly when the first pattern's candidate is long enough
    ensures r != name <==> Unset(name) && FirstPatternCandidate(text).Some?
                           && |FirstPatternCandidate(text).value| >= MinNameLength
  {
    if !Unset(name) then name
    else
      match FirstPatternCandidate(text)
      case None => name
      case Some(cand) =>
        if |cand| >= MinNameLength then
          KeptNameShape(text, cand);
          Some(Take(cand, MaxNameLength))
        else name
  }

  /** The candidate is read from the stripped rest of the message after the
      first pattern: it is a piece of that rest, and all of it when the rest
      holds no stop. */
  lemma CandidateOfRest(text: string)
    requires FirstPatternCandidate(text).Some?
    ensures var rest := Strip(text[CandidateStart(text).value..]);
            && Contains(rest, FirstPatternCandidate(text).value)
            && ((forall j :: 0 <= j < |NameStops| ==> !Contains(rest, NameStops[j]))
                ==> FirstPatternCandidate(text).value == rest)
  {
    var rest := Strip(text[CandidateStart(text).value..]);
    CutAtAllAvoids(rest, NameStops);
    if forall j :: 0 <= j < |NameStops| ==> !Contains(rest, NameStops[j]) {
      CutAtAllNoStops(rest, NameStops);
    }
  }

  /** The candidate cut to eighty characters is still a piece of the message
      without a stop. */
  lemma KeptNameShape(text: string, cand: string)
    requires FirstPatternCandidate(text) == Some(cand)
    ensures Contains(text, Take(cand, MaxNameLength))
    ensures forall j :: 0 <= j < |NameStops| ==> !Contains(Take(cand, MaxNameLength), NameStops[j])
  {
    CandidateShape(text);
    var kept := Take(cand, MaxNameLength);
    SliceContained(cand, 0, |kept|);
    ContainsTrans(text, cand, kept);
    forall j | 0 <= j < |NameStops|
      ensures !Contains(kept, NameStops[j])
    {
      InfixAvoids(cand, kept, NameStops[j]);
    }
  }

  /** With no name yet, the outcome depends only on the candidate's length. */
  lemma NameFromCandidate(name: Option<string>, text: string, cand: string)
    requires Unset(name) && FirstPatternCandidate(text) == Some(cand)
    ensures ExtractName(name, text) == if |cand| >= MinNameLength then Some(Take(cand, MaxNameLength)) else name
  {
  }

  /** Cutting changes nothing when no stop occurs. */
  lemma {:induction false} CutAtAllNoStops(name: string, stops: seq<string>)
    requires forall j :: 0 <= j < |stops| ==> !Contains(name, stops[j])
    ensures CutAtAll(name, stops) == name
    decreases |stops|
  {
    if stops != [] {
      assert CutAt(name, stops[0]) == name;
      assert forall j :: 0 <= j < |stops[1..]| ==> stops[1..][j] == stops[j + 1];
      CutAtAllNoStops(name, stops[1..]);
    }
  }

  /** `s` opens with the name `n` immediately followed by the character `c`. */
  predicate NameThen(s: string, n: string, c: char) {
    |s| > |n| && s[..|n|] == n && s[|n|] == c
  }

  /** No surrounding whitespace, and not empty. */
  predicate Trimmed(n: string) {
    n != [] && !IsSpace(n[0]) && !IsSpace(n[|n| - 1])
  }

  /** Stripping keeps a trimmed name and the non-space character after it. */
  lemma StripKeepsNameThen(s: string, n: string, c: char)
    requires Trimmed(n) && !IsSpace(c) && NameThen(s, n, c)
    ensures NameThen(Strip(s), n, c)
  {
    var b := StripBounds(s);
    assert !IsSpace(s[0]);
    assert b.0 == 0;
    assert !IsSpace(s[|n|]);
    assert b.1 > |n|;
    assert Strip(s)[..|n|] == s[..|n|];
  }

  /** One stop step on a string that opens with a trimmed name and then `c`:
      a stop absent from the name whose inner characters are not `c` cannot
      end inside the name, so the step keeps that opening, and the stop `[c]`
      itself cuts exactly the name. */
  lemma CutAtNameThen(s: string, n: string, c: char, stop: string)
    requires Trimmed(n) && !IsSpace(c) && NameThen(s, n, c)
    requires |stop| > 0 && !Contains(n, stop)
    requires forall k :: 1 <= k < |stop| ==> stop[k] != c
    ensures CutAt(s, stop) == n || NameThen(CutAt(s, stop), n, c)
    ensures stop == [c] ==> CutAt(s, stop) == n
  {
    if stop == [c] {
      assert OccursAt(s, stop, |n|);
      ContainsAt(s, stop, |n|);
    }
    if Contains(s, stop) {
      var idx := Find(s, stop);
      assert OccursAt(s, stop, idx);
      if idx < |n| {
        if idx + |stop| <= |n| {
          assert n[idx..idx + |stop|] == s[idx..idx + |stop|];
          ContainsAt(n, stop, idx);
          assert false;
        } else {
          assert false;
        }
      }
      var pre := s[..idx];
      if idx == |n| {
        assert pre == n;
        StripTrimmed(n);
      } else {
        assert NameThen(pre, n, c);
        StripKeepsNameThen(pre, n, c);
      }
    }
  }

  /** The stop loop on a string that opens with a trimmed, stop-free name and
      then `c` ends at exactly the name, provided `[c]` is one of the stops
      and no stop has `c` past its first character. */
  lemma {:induction false} CutAtAllNameThen(s: string, n: string, c: char, stops: seq<string>)
    requires Trimmed(n) && !IsSpace(c)
    requires s == n || (NameThen(s, n, c) && [c] in stops)
    requires forall j :: 0 <= j < |stops| ==> |stops[j]| > 0 && !Contains(n, stops[j])
    requires forall j, k :: 0 <= j < |stops| && 1 <= k < |stops[j]| ==> stops[j][k] != c
    ensures CutAtAll(s, stops) == n
    decreases |stops|
  {
    if s == n {
      CutAtAllNoStops(n, stops);
    } else {
      RemainingStops(n, c, stops);
      CutAtNameThenStep(s, n, c, stops);
      CutAtAllNameThen(CutAt(s, stops[0]), n, c, stops[1..]);
    }
  }

  /** One pass of the cutting loop keeps the shape `CutAtAllNameThen` needs. */
  lemma CutAtNameThenStep(s: string, n: string, c: char, stops: seq<string>)
    requires Trimmed(n) && !IsSpace(c)
    requires NameThen(s, n, c) && [c] in stops
    requires |stops[0]| > 0 && !Contains(n, stops[0])
    requires forall k :: 1 <= k < |stops[0]| ==> stops[0][k] != c
    ensures var t := CutAt(s, stops[0]);
      t == n || (NameThen(t, n, c) && [c] in stops[1..])
  {
    CutAtNameThen(s, n, c, stops[0]);
    if CutAt(s, stops[0]) != n {
      assert stops[0] != [c];
      assert [c] in stops[1..] by {
        var i :| 0 <= i < |stops| && stops[i] == [c];
        assert stops[1..][i - 1] == [c];
      }
    }
  }

  /** The conditions on the stops hold for the ones still to be tried. */
  lemma RemainingStops(n: string, c: char, stops: seq<string>)
    requires stops != []
    requires forall j :: 0 <= j < |stops| ==> |stops[j]| > 0 && !Contains(n, stops[j])
    requires forall j, k :: 0 <= j < |stops| && 1 <= k < |stops[j]| ==> stops[j][k] != c
    ensures |stops[0]| > 0 && !Contains(n, stops[0])
    ensures forall k :: 1 <= k < |stops[0]| ==> stops[0][k] != c
    ensures forall j :: 0 <= j < |stops[1..]| ==> |stops[1..][j]| > 0 && !Contains(n, stops[1..][j])
    ensures forall j, k :: 0 <= j < |stops[1..]| && 1 <= k < |stops[1..][j]| ==> stops[1..][j][k] != c
  {
    assert forall j :: 0 <= j < |stops[1..]| ==> stops[1..][j] == stops[j + 1];
  }

  /** A name followed by `.`, `,` or `;` is cut back to exactly the name,
      whatever follows: "Alex, phone 0664 ..." gives "Alex". */
  lemma NameBeforePunctuation(n: string, c: char, tail: string)
    requires Trimmed(n)
    requires c == '.' || c == ',' || c == ';'
    requires forall j :: 0 <= j < |NameStops| ==> !Contains(n, NameStops[j])
    ensures CutAtAll(n + [c] + tail, NameStops) == n
  {
    var s := n + [c] + tail;
    assert s[..|n|] == n;
    assert [c] in NameStops;
    assert NameStops[3] == " and ";
    CutAtAllNameThen(s, n, c, NameStops);
  }

  /** The reply format the bot asks for, "My name is <n>, ...", stores
      exactly <n> when <n> is a plain name. */
  lemma PromptedFormatName(n: string, tail: string)
    requires MinNameLength <= |n| <= MaxNameLength && Trimmed(n)
    requires forall j :: 0 <= j < |NameStops| ==> !Contains(n, NameStops[j])
    ensures ExtractName(None, "My name is " + (n + ", " + tail)) == Some(n)
  {
    var rest := n + ", " + tail;
    assert NameThen(rest, n, ',') by {
      assert rest[..|n|] == n;
    }
    StripKeepsNameThen(rest, n, ',');
    assert [','] in NameStops;
    assert NameStops[3] == " and ";
    CutAtAllNameThen(Strip(rest), n, ',', NameStops);
    SentenceCandidate(rest);
    NameFromCandidate(None, "My name is " + rest, n);
    TakeAll(n, MaxNameLength);
  }

  /** Stripping a string without surrounding whitespace changes nothing. */
  lemma StripTrimmed(s: string)
    requires s != [] && !IsSpace(s[0]) && !IsSpace(s[|s| - 1])
    ensures Strip(s) == s
  {
    var b := StripBounds(s);
    assert b.0 == 0;
    assert b.1 == |s|;
  }

  /** The first pattern is found at the very start of "My name is ...". */
  lemma SentenceStartsWithPattern(n: string)
    ensures Find(LowerStr("My name is " + n), NamePatterns[0]) == 0
  {
    var pat := NamePatterns[0];
    var text := "My name is " + n;
    assert text[0..|pat|] == "My name is ";
    assert LowerStr("My name is ") == pat;
    LowerSlice(text, 0, |pat|);
    assert OccursAt(LowerStr(text), pat, 0);
  }

  /** After "My name is " the candidate is the rest of the message, stripped
      and cut at the stops. */
  lemma SentenceCandidate(n: string)
    ensures FirstPatternCandidate("My name is " + n) == Some(CutAtAll(Strip(n), NameStops))
  {
    var text := "My name is " + n;
    var t := LowerStr(text);
    SentenceStartsWithPattern(n);
    assert Contains(t, NamePatterns[0]);
    assert FirstContainedFrom(t, NamePatterns, 0) == Some(0);
    assert text[|NamePatterns[0]|..] == n;
  }

  /** "My name is <n>" yields exactly <n> when <n> is a plain name: two to
      eighty characters, no surrounding whitespace and no stop. */
  lemma NameSentence(n: string)
    requires MinNameLength <= |n| <= MaxNameLength
    requires !IsSpace(n[0]) && !IsSpace(n[|n| - 1])
    requires forall j :: 0 <= j < |NameStops| ==> !Contains(n, NameStops[j])
    ensures ExtractName(None, "My name is " + n) == Some(n)
  {
    SentenceCandidate(n);
    PlainNameKept("My name is " + n, n);
  }

  /** A plain name that is the whole rest after the pattern is kept as is. */
  lemma PlainNameKept(text: string, n: string)
    requires MinNameLength <= |n| <= MaxNameLength
    requires !IsSpace(n[0]) && !IsSpace(n[|n| - 1])
    requires forall j :: 0 <= j < |NameStops| ==> !Contains(n, NameStops[j])
    requires FirstPatternCandidate(text) == Some(CutAtAll(Strip(n), NameStops))
    ensures ExtractName(None, text) == Some(n)
  {
    StripTrimmed(n);
    CutAtAllNoStops(n, NameStops);
    NameFromCandidate(None, text, n);
    TakeAll(n, MaxNameLength);
  }

  /** A one-character string avoids every longer string and every other
      single character. */
  lemma SingleAvoids(c: char, p: string)
    requires |p| > 1 || (|p| == 1 && p[0] != c)
    ensures !Contains([c], p)
  {
    forall j: nat
      ensures !OccursAt([c], p, j)
    {
      if j + |p| <= 1 {
        assert [c][j..j + |p|] == [c];
      }
    }
  }

  /** Stripping a string that starts with two non-space characters keeps
      them at the front. */
  lemma StripKeepsFront(n: string)
    requires |n| >= 2 && !IsSpace(n[0]) && !IsSpace(n[1])
    ensures |Strip(n)| >= 2 && Strip(n)[0] == n[0] && Strip(n)[1] == n[1]
  {
    var b := StripBounds(n);
    assert b.0 == 0;
    assert b.1 > 1;
  }

  /** A string "c." followed by anything is cut at its full stop down to "c". */
  lemma CutAfterOneChar(s: string, c: char)
    requires |s| >= 2 && s[0] == c && s[1] == '.' && !IsSpace(c) && c != '.' && c != ',' && c != ';'
    ensures CutAtAll(s, NameStops) == [c]
  {
    assert OccursAt(s, ".", 1);
    assert !OccursAt(s, ".", 0);
    assert Find(s, ".") == 1;
    assert s[..1] == [c];
    StripTrimmed([c]);
    assert CutAt(s, NameStops[0]) == [c];
    SingleAvoids(c, ",");
    SingleAvoids(c, ";");
    SingleAvoids(c, " and ");
    assert NameStops[1..] == [",", ";", " and "];
    CutAtAllNoStops([c], NameStops[1..]);
  }

  /** The search ends at the first pattern that occurs even when its
      candidate is rejected: in "My name is X. I am Robert" the candidate
      after "my name is " is the single character before the full stop, so
      no name is taken, and the later "i am " is never tried. */
  lemma RejectedCandidateEndsSearch(c: char, rest: string)
    requires !IsSpace(c) && c != '.' && c != ',' && c != ';'
    ensures ExtractName(None, "My name is " + ([c] + ". " + rest)) == None
  {
    var n := [c] + ". " + rest;
    assert |n| >= 2 && n[0] == c && n[1] == '.';
    var text := "My name is " + n;
    assert FirstPatternCandidate(text) == Some(CutAtAll(Strip(n), NameStops)) by {
      SentenceCandidate(n);
    }
    OneCharCandidateRejected(text, n);
  }

  /** A rest that opens with one character and a full stop yields a
      one-character candidate, which is too short to be a name. */
  lemma OneCharCandidateRejected(text: string, n: string)
    requires |n| >= 2 && !IsSpace(n[0]) && n[0] != '.' && n[0] != ',' && n[0] != ';' && n[1] == '.'
    requires FirstPatternCandidate(text) == Some(CutAtAll(Strip(n), NameStops))
    ensures ExtractName(None, text) == None
  {
    StripKeepsFront(n);
    CutAfterOneChar(Strip(n), n[0]);
    NameFromCandidate(None, text, [n[0]]);
  }

  // ---------------------------------------------------------------------------
  // update_collected_from_text

  /** `update_collected_from_text`: the message is stripped once, then the
      phone, best-time and name heuristics each fill their own field. No
      field that was already set changes, and a field that changes becomes
      non-empty. */
  function UpdateCollected(c: Collected, userText: string): (r: Collected)
    ensures Keeps(c, r)
    ensures FillsOnly(c.name, r.name) && FillsOnly(c.phone, r.phone) && FillsOnly(c.bestTime, r.bestTime)
    ensures r.phone == (if Unset(c.phone) && DigitCount(userText) >= MinPhoneDigits
                        then Some(PhoneChars(userText)) else c.phone)
    ensures r.bestTime == ExtractBestTime(c.bestTime, Strip(userText))
    ensures r.name == ExtractName(c.name, Strip(userText))
  {
    var text := Strip(userText);
    PhoneCharsOfStrip(userText);
    PhoneDigitCount(userText);
    PhoneDigitCount(text);
    Collected(ExtractName(c.name, text), ExtractPhone(c.phone, text), ExtractBestTime(c.bestTime, text))
  }

  /** Running the extractor twice on the same message changes nothing the
      first run did not. */
  lemma UpdateIdempotent(c: Collected, userText: string)
    ensures UpdateCollected(UpdateCollected(c, userText), userText) == UpdateCollected(c, userText)
  {
  }
}
