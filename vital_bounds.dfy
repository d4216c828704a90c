/**
 * The vital-sign bound substitution shared by both variants of the SQL
 * normaliser: `<name>_lower` / `<name>_upper` placeholders become the bounds
 * of a fixed table of normal ranges.
 *
 * The regular expressions are implemented by hand. `[ \n]+([a-zA-Z0-9_]+_lower)`
 * matches a run of blanks followed by the identifier run that comes after it,
 * cut at the LAST `_lower` that has at least one character in front of it (the
 * greedy `+` gives back characters until `_lower` follows). `re.search(...)` and
 * `re.findall(...)[0]` both produce the leftmost match, so one function serves both.
 */
module VitalBounds {
  import opened Wrappers
  import opened Text

  const LowerTag := "_lower"
  const UpperTag := "_upper"

  /**
   * Normal ranges by vital-sign name, with each bound written the way Python
   * prints the float (`f"{60.0}"` is `"60.0"`).
   */
  const PrecomputedRanges: map<string, (string, string)> := map[
    "temperature" := ("35.5", "38.1"),
    "sao2" := ("95.0", "100.0"),
    "heart rate" := ("60.0", "100.0"),
    "respiration" := ("12.0", "18.0"),
    "systolic bp" := ("90.0", "120.0"),
    "diastolic bp" := ("60.0", "90.0"),
    "mean bp" := ("60.0", "110.0")
  ]

  /** `[ \n]` */
  predicate IsBlank(c: char) { c == ' ' || c == '\n' }

  predicate TagAt(s: string, tag: string, k: int) {
    0 <= k && k + |tag| <= |s| && s[k..k + |tag|] == tag
  }

  /** The largest `k` in `[1, hi]` where `tag` starts: the point greedy backtracking stops at. */
  function LastTagAt(s: string, tag: string, hi: nat): (r: Option<nat>)
    ensures r.Some? ==> 1 <= r.value <= hi && TagAt(s, tag, r.value)
    ensures r.Some? ==> forall k | r.value < k <= hi :: !TagAt(s, tag, k)
    ensures r.None? <==> forall k | 1 <= k <= hi :: !TagAt(s, tag, k)
    decreases hi
  {
    if hi == 0 then None
    else if TagAt(s, tag, hi) then Some(hi)
    else LastTagAt(s, tag, hi - 1)
  }

  /**
   * `([a-zA-Z0-9_]+)<tag>` matched at the start of `s`: the length of the group,
   * which is followed by `tag` inside the identifier run that starts `s`.
   */
  function TaggedName(s: string, tag: string): (r: Option<nat>)
    ensures r.Some? ==> 1 <= r.value && r.value + |tag| <= |s| && s[r.value..r.value + |tag|] == tag
    ensures r.Some? ==> forall k | 0 <= k < r.value + |tag| :: IsWordChar(s[k])
  {
    var w := Run(s, IsWordChar);
    LastTagAt(s[..w], tag, w)
  }

  /** `[ \n]+([a-zA-Z0-9_]+<tag>)` matched at the start of `s`: the group. */
  function BlankTaggedAt(s: string, tag: string): (r: Option<string>)
    ensures r.Some? ==> |s| > 0 && IsBlank(s[0])
    ensures r.Some? ==> |r.value| > |tag| && EndsWith(r.value, tag)
    ensures r.Some? ==> forall k | 0 <= k < |r.value| :: IsWordChar(r.value[k])
  {
    if |s| == 0 || !IsBlank(s[0]) then None
    else
      var b := Run(s, IsBlank);
      match TaggedName(s[b..], tag)
      case None => None
      case Some(k) => Some(s[b..][..k + |tag|])
  }

  /** `re.search('[ \n]+([a-zA-Z0-9_]+<tag>)', s)`: the group of the leftmost match. */
  function SearchTagged(s: string, tag: string): (r: Option<string>)
    ensures r.Some? ==> |r.value| > |tag| && EndsWith(r.value, tag)
    ensures r.Some? ==> forall k | 0 <= k < |r.value| :: IsWordChar(r.value[k])
    decreases |s|
  {
    if |s| == 0 then None
    else if BlankTaggedAt(s, tag).Some? then BlankTaggedAt(s, tag)
    else SearchTagged(s[1..], tag)
  }

  /** `re.findall('([a-zA-Z0-9_]+)<tag>', e)`: every group, left to right, without overlap. */
  function FindAllTagged(e: string, tag: string): (r: seq<string>)
    decreases |e|
  {
    if |e| == 0 then []
    else match TaggedName(e, tag)
      case Some(k) => [e[..k]] + FindAllTagged(e[k + |tag|..], tag)
      case None => FindAllTagged(e[1..], tag)
  }

  /** The vital-sign name in front of the tag of a matched group. */
  function NameOf(g: string, tag: string): string
    requires |g| >= |tag|
  {
    g[..|g| - |tag|]
  }

  /** `name.replace('_', ' ')`: the key looked up in the table. */
  function KeyOf(name: string): string {
    ReplaceAll(name, "_", " ")
  }

  /**
   * Lines 55-63 of the normaliser: when both a `_lower` and an `_upper` group
   * are found, the bounds are substituted by `SubstituteFound`; otherwise the
   * query is returned as is.
   */
  function SubstituteVitalBounds(q: string): (r: string)
    ensures r == q || Occurs(q, LowerTag)
    ensures SearchTagged(q, LowerTag).None? || SearchTagged(q, UpperTag).None? ==> r == q
  {
    match (SearchTagged(q, LowerTag), SearchTagged(q, UpperTag))
    case (Some(lo), Some(hi)) =>
      SearchTaggedOccurs(q, LowerTag);
      SubstituteFound(q, lo, hi)
    case _ => q
  }

  /**
   * The names of the two groups, deduplicated through a set; when exactly one
   * name remains and its key is in the table, every occurrence of each group is
   * replaced by its bound.
   */
  function SubstituteFound(q: string, lo: string, hi: string): (r: string)
    requires |lo| > |LowerTag| && EndsWith(lo, LowerTag) && forall k | 0 <= k < |lo| :: IsWordChar(lo[k])
    requires |hi| > |UpperTag| && EndsWith(hi, UpperTag) && forall k | 0 <= k < |hi| :: IsWordChar(hi[k])
    ensures r == q || exists key :: (key in PrecomputedRanges &&
      r == ReplaceAll(ReplaceAll(q, lo, PrecomputedRanges[key].0), hi, PrecomputedRanges[key].1))
  {
    FindAllOfGroup(lo, LowerTag);
    FindAllOfGroup(hi, UpperTag);
    var names := FindAllTagged(lo, LowerTag) + FindAllTagged(hi, UpperTag);
    var distinct := set n | n in names;
    if |distinct| == 1 then
      var key := KeyOf(names[0]);
      if key in PrecomputedRanges then
        ReplaceAll(ReplaceAll(q, lo, PrecomputedRanges[key].0), hi, PrecomputedRanges[key].1)
      else q
    else q
  }

  /** A two-element list has one distinct element exactly when its elements are equal. */
  lemma DistinctOfTwo(a: string, b: string)
    ensures |set n | n in [a] + [b]| == 1 <==> a == b
  {
    var distinct := set n | n in [a] + [b];
    assert distinct == {a, b};
    if a != b {
      assert |{a, b}| == 2;
    }
  }

  /**
   * The substitution rule: the query changes exactly when the first `_lower`
   * and the first `_upper` group carry one and the same name and that name,
   * with underscores turned into spaces, is a key of the table.
   */
  lemma VitalSubstitutionRule(q: string, lo: string, hi: string)
    requires SearchTagged(q, LowerTag) == Some(lo) && SearchTagged(q, UpperTag) == Some(hi)
    ensures var name := NameOf(lo, LowerTag);
      SubstituteVitalBounds(q) ==
        if NameOf(hi, UpperTag) == name && KeyOf(name) in PrecomputedRanges then
          ReplaceAll(ReplaceAll(q, lo, PrecomputedRanges[KeyOf(name)].0), hi, PrecomputedRanges[KeyOf(name)].1)
        else q
  {
    FindAllOfGroup(lo, LowerTag);
    FindAllOfGroup(hi, UpperTag);
    DistinctOfTwo(NameOf(lo, LowerTag), NameOf(hi, UpperTag));
    assert SubstituteVitalBounds(q) == SubstituteFound(q, lo, hi);
  }

  lemma SearchTaggedOccurs(s: string, tag: string)
    requires SearchTagged(s, tag).Some?
    ensures Occurs(s, tag)
    decreases |s|
  {
    if BlankTaggedAt(s, tag).Some? {
      var b := Run(s, IsBlank);
      var k := TaggedName(s[b..], tag).value;
      assert s[b..][k..k + |tag|] == s[b + k..b + k + |tag|];
      OccursAt(s, tag, b + k);
    } else {
      SearchTaggedOccurs(s[1..], tag);
      OccursInSuffix(s, 1, tag);
    }
  }

  /** In an identifier ending in the tag, the last place the tag starts is its end. */
  lemma LastTagAtEnd(g: string, tag: string)
    requires |tag| > 0 && |g| > |tag| && EndsWith(g, tag)
    ensures LastTagAt(g, tag, |g|) == Some(|g| - |tag|)
  {
    var k := |g| - |tag|;
    assert TagAt(g, tag, k);
    var r := LastTagAt(g, tag, |g|);
    assert r.Some?;
    assert !(r.value < k);
  }

  /** An identifier that ends in the tag, followed by a non-word character, is named up to that tag. */
  lemma TaggedNameOfWord(g: string, y: string, tag: string)
    requires |tag| > 0 && |g| > |tag| && EndsWith(g, tag)
    requires forall k | 0 <= k < |g| :: IsWordChar(g[k])
    requires |y| == 0 || !IsWordChar(y[0])
    ensures TaggedName(g + y, tag) == Some(|g| - |tag|)
  {
    RunOfConcat(g, y, IsWordChar);
    assert (g + y)[..|g|] == g;
    LastTagAtEnd(g, tag);
  }

  /**
   * `re.findall('([a-zA-Z0-9_]+)<tag>', g)` on a group the search returned
   * yields exactly its name.
   */
  lemma FindAllOfGroup(g: string, tag: string)
    requires |tag| > 0 && |g| > |tag| && EndsWith(g, tag)
    requires forall k | 0 <= k < |g| :: IsWordChar(g[k])
    ensures FindAllTagged(g, tag) == [NameOf(g, tag)]
  {
    var k := |g| - |tag|;
    assert Run(g, IsWordChar) == |g|;
    assert g[..|g|] == g;
    LastTagAtEnd(g, tag);
    assert TaggedName(g, tag) == Some(k);
    assert g[k + |tag|..] == [];
  }

  /** A match cannot start inside text without blanks. */
  lemma {:induction false} SearchTaggedSkipsWord(x: string, y: string, tag: string)
    requires forall k | 0 <= k < |x| :: !IsBlank(x[k])
    ensures SearchTagged(x + y, tag) == SearchTagged(y, tag)
    decreases |x|
  {
    if |x| == 0 {
      assert x + y == y;
    } else {
      assert (x + y)[0] == x[0] && (x + y)[1..] == x[1..] + y;
      SearchTaggedSkipsWord(x[1..], y, tag);
    }
  }

  /** A blank followed by an identifier without the tag is passed over. */
  lemma SearchTaggedSkipsUntagged(w: string, y: string, tag: string)
    requires |w| > 0 && (forall k | 0 <= k < |w| :: IsWordChar(w[k])) && !Occurs(w, tag)
    requires |y| == 0 || !IsWordChar(y[0])
    ensures SearchTagged(" " + w + y, tag) == SearchTagged(y, tag)
  {
    var s := " " + w + y;
    assert s[1..] == w + y;
    RunOfConcat([' '], w + y, IsBlank);
    assert s == [' '] + (w + y);
    RunOfConcat(w, y, IsWordChar);
    assert (w + y)[..|w|] == w;
    if LastTagAt(w, tag, |w|).Some? {
      var k := LastTagAt(w, tag, |w|).value;
      OccursAt(w, tag, k);
    }
    SearchTaggedSkipsWord(w, y, tag);
  }

  /** A blank followed by an identifier that ends in the tag is a match, and its group is that identifier. */
  lemma SearchTaggedFinds(g: string, y: string, tag: string)
    requires |tag| > 0 && |g| > |tag| && EndsWith(g, tag)
    requires forall k | 0 <= k < |g| :: IsWordChar(g[k])
    requires |y| == 0 || !IsWordChar(y[0])
    ensures SearchTagged(" " + g + y, tag) == Some(g)
  {
    var s := " " + g + y;
    assert s == [' '] + (g + y);
    RunOfConcat([' '], g + y, IsBlank);
    assert s[1..] == g + y;
    TaggedNameOfWord(g, y, tag);
    assert (g + y)[..|g|] == g;
    assert BlankTaggedAt(s, tag) == Some(g);
  }

  /**
   * `heart_rate_lower` and `heart_rate_upper` become the heart-rate bounds. The
   * query is passed in pieces so that the proof goes through the general lemmas.
   */
  lemma HeartRateExample(q: string, v: string, w: string, lo: string, and: string, hi: string)
    requires v == "v" && w == "BETWEEN" && and == "AND"
    requires lo == "heart_rate_lower" && hi == "heart_rate_upper"
    requires q == v + " " + w + " " + lo + " " + and + " " + hi
    ensures SubstituteVitalBounds(q) == v + " " + w + " 60.0 " + and + " 100.0"
  {
    HeartRateSearch(q, v, w, lo, and, hi);
    VitalSubstitutionRule(q, lo, hi);
    HeartRateNames(lo, hi);
    HeartRateReplace(q, v, w, lo, and, hi);
  }

  lemma HeartRateSearch(q: string, v: string, w: string, lo: string, and: string, hi: string)
    requires v == "v" && w == "BETWEEN" && and == "AND"
    requires lo == "heart_rate_lower" && hi == "heart_rate_upper"
    requires q == v + " " + w + " " + lo + " " + and + " " + hi
    ensures SearchTagged(q, LowerTag) == Some(lo) && SearchTagged(q, UpperTag) == Some(hi)
  {
    HeartRateVerbs(v, w);
    var rest := " " + and + " " + hi;
    var tail := " " + lo + rest;
    RegroupTail(v, w, lo, and, hi);
    HeartRateSearchLower(lo, rest);
    SearchPastVerbs(v, w, tail, LowerTag);
    HeartRateSearchUpper(lo, and, hi);
    SearchPastVerbs(v, w, tail, UpperTag);
  }

  lemma HeartRateVerbs(v: string, w: string)
    requires v == "v" && w == "BETWEEN"
    ensures forall k | 0 <= k < |v| :: !IsBlank(v[k])
    ensures |w| > 0 && forall k | 0 <= k < |w| :: IsWordChar(w[k])
    ensures LowerTag[0] !in w && UpperTag[0] !in w
  {
  }

  lemma RegroupTail(v: string, w: string, lo: string, and: string, hi: string)
    ensures v + " " + w + " " + lo + " " + and + " " + hi == v + " " + w + (" " + lo + (" " + and + " " + hi))
  {
  }

  /** A blank-free word, a blank and an untagged identifier are skipped before the search reaches `tail`. */
  lemma SearchPastVerbs(v: string, w: string, tail: string, tag: string)
    requires forall k | 0 <= k < |v| :: !IsBlank(v[k])
    requires |w| > 0 && (forall k | 0 <= k < |w| :: IsWordChar(w[k]))
    requires |tag| > 0 && tag[0] !in w
    requires |tail| == 0 || !IsWordChar(tail[0])
    ensures SearchTagged(v + " " + w + tail, tag) == SearchTagged(tail, tag)
  {
    var rest := " " + w + tail;
    SkipsWordWithoutTagChar(w, tail, tag);
    VerbFirst(v, w, tail);
    SearchTaggedSkipsWord(v, rest, tag);
  }

  lemma SkipsWordWithoutTagChar(w: string, tail: string, tag: string)
    requires |w| > 0 && (forall k | 0 <= k < |w| :: IsWordChar(w[k]))
    requires |tag| > 0 && tag[0] !in w
    requires |tail| == 0 || !IsWordChar(tail[0])
    ensures SearchTagged(" " + w + tail, tag) == SearchTagged(tail, tag)
  {
    AbsentWithoutFirstChar(w, tag);
    SearchTaggedSkipsUntagged(w, tail, tag);
  }

  lemma VerbFirst(v: string, w: string, tail: string)
    ensures v + " " + w + tail == v + (" " + w + tail)
  {
  }

  lemma HeartRateSearchLower(lo: string, rest: string)
    requires lo == "heart_rate_lower" && |rest| > 0 && rest[0] == ' '
    ensures SearchTagged(" " + lo + rest, LowerTag) == Some(lo)
  {
    assert forall k | 0 <= k < |lo| :: IsWordChar(lo[k]);
    assert EndsWith(lo, LowerTag);
    SearchTaggedFinds(lo, rest, LowerTag);
  }

  lemma HeartRateSearchUpper(lo: string, and: string, hi: string)
    requires lo == "heart_rate_lower" && and == "AND" && hi == "heart_rate_upper"
    ensures SearchTagged(" " + lo + (" " + and + " " + hi), UpperTag) == Some(hi)
  {
    HeartRateUpperFound(hi);
    assert forall k | 0 <= k < |and| :: IsWordChar(and[k]);
    AbsentWithoutFirstChar(and, UpperTag);
    HeartRateLowerIsNotUpper(lo);
    var last := " " + hi;
    assert " " + hi + "" == last;
    var rest := " " + and + last;
    assert " " + and + " " + hi == rest;
    SearchTaggedSkipsUntagged(and, last, UpperTag);
    SearchTaggedSkipsUntagged(lo, rest, UpperTag);
  }

  lemma HeartRateUpperFound(hi: string)
    requires hi == "heart_rate_upper"
    ensures SearchTagged(" " + hi + "", UpperTag) == Some(hi)
  {
    assert forall k | 0 <= k < |hi| :: IsWordChar(hi[k]);
    assert EndsWith(hi, UpperTag);
    SearchTaggedFinds(hi, "", UpperTag);
  }

  lemma HeartRateLowerIsNotUpper(lo: string)
    requires lo == "heart_rate_lower"
    ensures (forall k | 0 <= k < |lo| :: IsWordChar(lo[k])) && !Occurs(lo, UpperTag)
  {
    HeartRateLowerLetters(lo);
    NoUpperTagWithoutU(lo);
  }

  lemma HeartRateLowerLetters(lo: string)
    requires lo == "heart_rate_lower"
    ensures (forall k | 0 <= k < |lo| :: IsWordChar(lo[k])) && 'u' !in lo
  {
  }

  /** Text without a `u` holds no `_upper`. */
  lemma NoUpperTagWithoutU(s: string)
    requires 'u' !in s
    ensures !Occurs(s, UpperTag)
  {
    assert UpperTag[1] == 'u';
    AbsentWithoutChar(s, UpperTag, 1);
  }

  lemma HeartRateReplace(q: string, v: string, w: string, lo: string, and: string, hi: string)
    requires v == "v" && w == "BETWEEN" && and == "AND"
    requires lo == "heart_rate_lower" && hi == "heart_rate_upper"
    requires q == v + " " + w + " " + lo + " " + and + " " + hi
    ensures ReplaceAll(ReplaceAll(q, lo, "60.0"), hi, "100.0") == v + " " + w + " 60.0 " + and + " 100.0"
  {
    var front, mid := v + " " + w + " ", " " + and + " ";
    HeartRateLetters(front, mid, v, w, and);
    HeartRateTagsDiffer(lo, hi);
    OccursSameLength(hi, lo);
    Regroup(v, w, lo, and, hi);
    ReplaceTwoTags(front, lo, mid, hi, "60.0", "100.0");
    HeartRateText(v, w, and);
  }

  lemma Regroup(v: string, w: string, lo: string, and: string, hi: string)
    ensures v + " " + w + " " + lo + " " + and + " " + hi == (v + " " + w + " ") + lo + ((" " + and + " ") + hi)
  {
  }

  /** Replacing two tags that each occur once, the first before the second, gives both replacements. */
  lemma ReplaceTwoTags(front: string, lo: string, mid: string, hi: string, a: string, b: string)
    requires |lo| > 0 && |hi| > 0 && lo[0] == hi[0]
    requires lo[0] !in front && lo[0] !in mid && lo[0] !in a && !Occurs(hi, lo)
    ensures ReplaceAll(ReplaceAll(front + lo + (mid + hi), lo, a), hi, b) == front + a + mid + b
  {
    ReplaceAllSkipsPrefix(mid, hi, lo, a);
    ReplaceAllOnce(front, lo, mid + hi, a);
    var done := front + a + mid;
    assert front + a + (mid + hi) == done + hi + "";
    assert hi[0] !in done;
    ReplaceAllOnce(done, hi, "", b);
  }

  lemma HeartRateLetters(front: string, mid: string, v: string, w: string, and: string)
    requires v == "v" && w == "BETWEEN" && and == "AND"
    requires front == v + " " + w + " " && mid == " " + and + " "
    ensures 'h' !in front && 'h' !in mid && 'h' !in "60.0"
  {
  }

  lemma HeartRateTagsDiffer(lo: string, hi: string)
    requires lo == "heart_rate_lower" && hi == "heart_rate_upper"
    ensures lo != hi && |lo| == |hi| && lo[0] == hi[0] == 'h'
  {
    assert lo[11] != hi[11];
  }

  lemma HeartRateText(v: string, w: string, and: string)
    ensures v + " " + w + " " + "60.0" + (" " + and + " ") + "100.0" + "" == v + " " + w + " 60.0 " + and + " 100.0"
  {
  }

  lemma HeartRateNames(lo: string, hi: string)
    requires lo == "heart_rate_lower" && hi == "heart_rate_upper"
    ensures NameOf(lo, LowerTag) == NameOf(hi, UpperTag)
    ensures KeyOf(NameOf(lo, LowerTag)) in PrecomputedRanges
    ensures PrecomputedRanges[KeyOf(NameOf(lo, LowerTag))] == ("60.0", "100.0")
  {
    assert NameOf(lo, LowerTag) == "heart_rate" == NameOf(hi, UpperTag);
    HeartRateKey();
  }

  /** Two words joined by an underscore give the key with a space between them. */
  lemma KeyOfTwoWords(a: string, b: string)
    requires '_' !in a && '_' !in b
    ensures KeyOf(a + "_" + b) == a + " " + b
  {
    assert a + "_" + b == a + ("_" + b);
    ReplaceAllSkipsPrefix(a, "_" + b, "_", " ");
    ReplaceAllAtPattern("_", b, " ");
    ReplaceAllWithoutFirstChar(b, "_", " ");
  }

  lemma HeartRateKey()
    ensures KeyOf("heart_rate") == "heart rate"
  {
    KeyOfTwoWords("heart", "rate");
    assert "heart" + "_" + "rate" == "heart_rate";
    assert "heart" + " " + "rate" == "heart rate";
  }
}
