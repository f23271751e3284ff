/**
 * Display names of the core courses: the label text of a column is split on
 * " - " (Python's str.split), the last piece is kept, and the result is
 * stripped of surrounding whitespace (Python's str.strip with no argument).
 */
module CourseNames {
  import opened Options

  /** The separator between the survey question and the course name. */
  const SEP: string := " - "

  /** `sep` occurs in `s` starting at index `i`. */
  predicate OccursAt(s: string, sep: string, i: nat) {
    i + |sep| <= |s| && s[i..i + |sep|] == sep
  }

  /** Python's `sep in s`. */
  predicate Contains(s: string, sep: string) {
    exists i | 0 <= i <= |s| :: OccursAt(s, sep, i)
  }

  /** Python's `s.find(sep, start)`: the leftmost occurrence at or after `start`. */
  function FindFrom(s: string, sep: string, start: nat): (r: Option<nat>)
    requires start <= |s|
    ensures r.Some? ==> start <= r.value <= |s| && OccursAt(s, sep, r.value)
    ensures r.Some? ==> forall j :: start <= j < r.value ==> !OccursAt(s, sep, j)
    ensures r.None? ==> forall j: nat :: start <= j ==> !OccursAt(s, sep, j)
    decreases |s| - start
  {
    if OccursAt(s, sep, start) then Some(start)
    else if start == |s| then None
    else FindFrom(s, sep, start + 1)
  }

  /** Python's `s.find(sep)`. */
  function Find(s: string, sep: string): (r: Option<nat>)
    ensures r.Some? <==> Contains(s, sep)
    ensures r.Some? ==> OccursAt(s, sep, r.value) && forall j :: 0 <= j < r.value ==> !OccursAt(s, sep, j)
  {
    FindFrom(s, sep, 0)
  }

  /** Inverse of Split: the pieces glued back together with the separator between them. */
  function Join(parts: seq<string>, sep: string): string
    requires |parts| >= 1
  {
    if |parts| == 1 then parts[0] else parts[0] + sep + Join(parts[1..], sep)
  }

  /** An occurrence inside a slice of `s` is an occurrence in `s`, shifted by the slice's start. */
  lemma OccursInSlice(s: string, sep: string, lo: nat, hi: nat, j: nat)
    requires lo <= hi <= |s|
    requires OccursAt(s[lo..hi], sep, j)
    ensures OccursAt(s, sep, lo + j)
  {
    forall k | 0 <= k < |sep| ensures s[lo + j + k] == sep[k] {
      assert s[lo..hi][j..j + |sep|][k] == sep[k];
    }
  }

  /** The leftmost occurrence in `s` is also the leftmost in the prefix of `s` that ends with it. */
  lemma FirstCutLeftmost(s: string, sep: string, i: nat)
    requires |sep| > 0 && Find(s, sep) == Some(i)
    ensures Find(s[..i] + sep, sep) == Some(i)
  {
    var p := s[..i] + sep;
    assert p == s[..i + |sep|];
    assert p[i..i + |sep|] == sep;
    assert OccursAt(p, sep, i);
    forall j | 0 <= j < i ensures !OccursAt(p, sep, j) {
      if OccursAt(p, sep, j) {
        OccursInSlice(s, sep, 0, i + |sep|, j);
      }
    }
    var r := Find(p, sep);
    assert r.Some? && !(i < r.value);
  }

  /** Putting the piece before the leftmost occurrence in front of leftmost cuts keeps every cut leftmost. */
  lemma LeftmostCutsCons(s: string, sep: string, i: nat, rest: seq<string>)
    requires |sep| > 0 && Find(s, sep) == Some(i)
    requires forall k :: 0 <= k < |rest| - 1 ==> Find(rest[k] + sep, sep) == Some(|rest[k]|)
    ensures var parts := [s[..i]] + rest;
      forall k :: 0 <= k < |parts| - 1 ==> Find(parts[k] + sep, sep) == Some(|parts[k]|)
  {
    FirstCutLeftmost(s, sep, i);
    var parts := [s[..i]] + rest;
    forall k | 0 <= k < |parts| - 1 ensures Find(parts[k] + sep, sep) == Some(|parts[k]|) {
      if k > 0 {
        assert parts[k] == rest[k - 1];
      }
    }
  }

  /**
   * Python's `s.split(sep)` for a non-empty separator: the occurrences are
   * taken left to right without overlapping. Gluing the pieces back gives `s`,
   * no piece holds the separator, there is more than one piece exactly when the
   * separator occurs, and each cut is at the leftmost occurrence after the
   * previous cut.
   */
  function Split(s: string, sep: string): (parts: seq<string>)
    requires |sep| > 0
    ensures |parts| >= 1
    ensures Join(parts, sep) == s
    ensures forall k :: 0 <= k < |parts| ==> !Contains(parts[k], sep)
    ensures |parts| > 1 <==> Contains(s, sep)
    ensures forall k :: 0 <= k < |parts| - 1 ==> Find(parts[k] + sep, sep) == Some(|parts[k]|)
    decreases |s|
  {
    match Find(s, sep)
    case None => [s]
    case Some(i) =>
      var rest := Split(s[i + |sep|..], sep);
      assert !Contains(s[..i], sep) by {
        forall j | 0 <= j <= i ensures !OccursAt(s[..i], sep, j) {
          if OccursAt(s[..i], sep, j) {
            OccursInSlice(s, sep, 0, i, j);
          }
        }
      }
      assert s == s[..i] + sep + s[i + |sep|..];
      LeftmostCutsCons(s, sep, i, rest);
      [s[..i]] + rest
  }

  /** A join of several pieces is the join of all but the last, the separator, and the last. */
  lemma {:induction false} JoinSnoc(parts: seq<string>, sep: string)
    requires |parts| > 1
    ensures Join(parts, sep) == Join(parts[..|parts| - 1], sep) + sep + parts[|parts| - 1]
  {
    var init := parts[..|parts| - 1];
    if |parts| == 2 {
      assert init == [parts[0]];
    } else {
      JoinSnoc(parts[1..], sep);
      assert parts[1..][..|parts| - 2] == init[1..];
      assert parts[1..][|parts| - 2] == parts[|parts| - 1];
    }
  }

  /** The last piece of a join is a suffix of it, preceded by the separator when there are several pieces. */
  lemma JoinEndsWithLast(parts: seq<string>, sep: string)
    requires |parts| >= 1
    ensures var j := Join(parts, sep); var last := parts[|parts| - 1];
      |last| <= |j| && j[|j| - |last|..] == last
    ensures |parts| > 1 ==> var j := Join(parts, sep); var last := parts[|parts| - 1];
      |sep| + |last| <= |j| && j[|j| - |last| - |sep|..] == sep + last
  {
    var last := parts[|parts| - 1];
    if |parts| > 1 {
      JoinSnoc(parts, sep);
      var init := Join(parts[..|parts| - 1], sep);
      var j := init + sep + last;
      assert j[|j| - |last|..] == last;
      assert j[|j| - |last| - |sep|..] == sep + last;
    }
  }

  /** Python's `s.split(sep)[-1]`: what follows the last split point. */
  function LastSegment(s: string, sep: string): (seg: string)
    requires |sep| > 0
    ensures !Contains(seg, sep)
    ensures |seg| <= |s| && s[|s| - |seg|..] == seg
    ensures Contains(s, sep) ==> |sep| + |seg| <= |s| && s[|s| - |seg| - |sep|..] == sep + seg
    ensures !Contains(s, sep) ==> seg == s
  {
    var parts := Split(s, sep);
    JoinEndsWithLast(parts, sep);
    assert !Contains(parts[|parts| - 1], sep);
    parts[|parts| - 1]
  }

  /** No two occurrences of `sep` in `s` share a character. */
  ghost predicate NoOverlap(s: string, sep: string) {
    forall j: nat, k: nat :: j < k && OccursAt(s, sep, j) && OccursAt(s, sep, k) ==> j + |sep| <= k
  }

  /** Occurrences in a suffix are the occurrences in the text, shifted. */
  lemma OccursInSuffix(s: string, sep: string, d: nat, j: nat)
    requires d <= |s|
    ensures OccursAt(s[d..], sep, j) <==> OccursAt(s, sep, d + j)
  {
    if d + j + |sep| <= |s| {
      assert s[d..][j..j + |sep|] == s[d + j..d + j + |sep|];
    }
  }

  /** The last piece of the split is the last piece of the split of the text after the first cut. */
  lemma LastSegmentAfterFirstCut(s: string, sep: string) returns (i0: nat)
    requires |sep| > 0 && Contains(s, sep)
    ensures Find(s, sep) == Some(i0) && i0 + |sep| <= |s|
    ensures LastSegment(s, sep) == LastSegment(s[i0 + |sep|..], sep)
  {
    i0 := Find(s, sep).value;
    assert Split(s, sep) == [s[..i0]] + Split(s[i0 + |sep|..], sep);
  }

  /**
   * Cutting off a prefix that ends before the last occurrence at `i` keeps
   * that occurrence last and keeps occurrences apart.
   */
  lemma SuffixKeepsLastOccurrence(s: string, sep: string, d: nat, i: nat)
    requires d <= i && OccursAt(s, sep, i) && NoOverlap(s, sep)
    requires forall j: nat :: i < j ==> !OccursAt(s, sep, j)
    ensures OccursAt(s[d..], sep, i - d) && NoOverlap(s[d..], sep)
    ensures forall j: nat :: i - d < j ==> !OccursAt(s[d..], sep, j)
  {
    var t := s[d..];
    OccursInSuffix(s, sep, d, i - d);
    forall j: nat | i - d < j ensures !OccursAt(t, sep, j) {
      OccursInSuffix(s, sep, d, j);
    }
    forall j: nat, k: nat | j < k && OccursAt(t, sep, j) && OccursAt(t, sep, k)
      ensures j + |sep| <= k
    {
      OccursInSuffix(s, sep, d, j);
      OccursInSuffix(s, sep, d, k);
    }
  }

  /**
   * When no two occurrences of the separator overlap, the last piece of the
   * split is exactly the text after the last occurrence.
   */
  lemma {:induction false} LastSegmentAfterLastOccurrence(s: string, sep: string, i: nat)
    requires |sep| > 0 && OccursAt(s, sep, i) && NoOverlap(s, sep)
    requires forall j: nat :: i < j ==> !OccursAt(s, sep, j)
    ensures LastSegment(s, sep) == s[i + |sep|..]
    decreases |s|
  {
    var i0 := LastSegmentAfterFirstCut(s, sep);
    var t := s[i0 + |sep|..];
    if i0 == i {
      forall j: nat | j <= |t| ensures !OccursAt(t, sep, j) {
        OccursInSuffix(s, sep, i0 + |sep|, j);
      }
    } else {
      SuffixKeepsLastOccurrence(s, sep, i0 + |sep|, i);
      LastSegmentAfterLastOccurrence(t, sep, i - i0 - |sep|);
      assert t[i - i0..] == s[i + |sep|..];
    }
  }

  /** Python's str.isspace for one character: the Unicode whitespace and separator code points. */
  predicate IsSpace(c: char) {
    var n := c as int;
    (0x09 <= n <= 0x0D) || (0x1C <= n <= 0x20) || n == 0x85 || n == 0xA0 || n == 0x1680
    || (0x2000 <= n <= 0x200A) || n == 0x2028 || n == 0x2029 || n == 0x202F || n == 0x205F
    || n == 0x3000
  }

  predicate AllSpace(s: string) {
    forall k :: 0 <= k < |s| ==> IsSpace(s[k])
  }

  /** Python's `s.lstrip()`. */
  function TrimStart(s: string): string {
    if |s| > 0 && IsSpace(s[0]) then TrimStart(s[1..]) else s
  }

  /** Python's `s.rstrip()`. */
  function TrimEnd(s: string): string {
    if |s| > 0 && IsSpace(s[|s| - 1]) then TrimEnd(s[..|s| - 1]) else s
  }

  /** lstrip removes a run of whitespace from the front and stops at the first other character. */
  lemma {:induction false} TrimStartSpec(s: string)
    ensures var r := TrimStart(s);
      |r| <= |s| && r == s[|s| - |r|..] && AllSpace(s[..|s| - |r|]) && (r == [] || !IsSpace(r[0]))
  {
    if |s| > 0 && IsSpace(s[0]) {
      TrimStartSpec(s[1..]);
      var r := TrimStart(s[1..]);
      assert s[..|s| - |r|] == [s[0]] + s[1..][..|s| - 1 - |r|];
    }
  }

  /** rstrip removes a run of whitespace from the back and stops at the last other character. */
  lemma {:induction false} TrimEndSpec(s: string)
    ensures var r := TrimEnd(s);
      |r| <= |s| && r == s[..|r|] && AllSpace(s[|r|..]) && (r == [] || !IsSpace(r[|r| - 1]))
  {
    if |s| > 0 && IsSpace(s[|s| - 1]) {
      TrimEndSpec(s[..|s| - 1]);
      var r := TrimEnd(s[..|s| - 1]);
      assert s[|r|..] == s[..|s| - 1][|r|..] + [s[|s| - 1]];
    }
  }

  /** `r` sits in `s` at index `i` with only whitespace before and after it. */
  predicate PaddedAt(s: string, r: string, i: nat) {
    OccursAt(s, r, i) && AllSpace(s[..i]) && AllSpace(s[i + |r|..])
  }

  /** Python's `s.strip()`. */
  function Trim(s: string): string {
    TrimEnd(TrimStart(s))
  }

  /**
   * strip leaves a piece of `s` with a run of whitespace before and after it,
   * and the piece neither starts nor ends with whitespace.
   */
  lemma TrimSpec(s: string)
    ensures exists i: nat :: PaddedAt(s, Trim(s), i)
    ensures var r := Trim(s); r == [] || (!IsSpace(r[0]) && !IsSpace(r[|r| - 1]))
  {
    var t := TrimStart(s);
    var r := TrimEnd(t);
    TrimStartSpec(s);
    TrimEndSpec(t);
    var i: nat := |s| - |t|;
    assert s[i..] == t;
    assert s[i..i + |r|] == r;
    assert s[i + |r|..] == t[|r|..];
    assert Trim(s) == r && PaddedAt(s, r, i);
    if r != [] {
      assert r[0] == t[0];
    }
  }

  /** Stripping what is already stripped changes nothing. */
  lemma TrimIdempotent(s: string)
    ensures Trim(Trim(s)) == Trim(s)
  {
    var r := Trim(s);
    TrimSpec(s);
    if r != [] {
      assert TrimStart(r) == r;
      assert TrimEnd(r) == r;
    }
  }

  /** A slice of a string without the separator has no separator either. */
  lemma {:induction false} NoSeparatorInSlice(s: string, sep: string, lo: nat, hi: nat)
    requires lo <= hi <= |s|
    requires !Contains(s, sep)
    ensures !Contains(s[lo..hi], sep)
  {
    forall j | 0 <= j <= |s[lo..hi]| ensures !OccursAt(s[lo..hi], sep, j) {
      if OccursAt(s[lo..hi], sep, j) {
        OccursInSlice(s, sep, lo, hi, j);
      }
    }
  }

  /** The name extraction of lines 34-38: split on " - " when it occurs, fall back to the whole text, then strip. */
  function DisplayName(text: string): string {
    Trim(if Contains(text, SEP) then LastSegment(text, SEP) else text)
  }

  /** With " - " in the text, the name is the stripped text after the last split point. */
  lemma DisplayNameAfterSeparator(text: string)
    requires Contains(text, SEP)
    ensures var seg := LastSegment(text, SEP);
      DisplayName(text) == Trim(seg)
      && |SEP| + |seg| <= |text| && text[|text| - |seg| - |SEP|..] == SEP + seg
      && !Contains(seg, SEP)
  {
  }

  /**
   * When no two " - " in the label overlap, the name is the stripped text
   * after the last " - ".
   */
  lemma DisplayNameAfterLastSeparator(text: string, i: nat)
    requires OccursAt(text, SEP, i) && NoOverlap(text, SEP)
    requires forall j: nat :: i < j ==> !OccursAt(text, SEP, j)
    ensures DisplayName(text) == Trim(text[i + |SEP|..])
  {
    LastSegmentAfterLastOccurrence(text, SEP, i);
  }

  /** Without " - " in the text, the name is the stripped text. */
  lemma DisplayNameFallback(text: string)
    requires !Contains(text, SEP)
    ensures DisplayName(text) == Trim(text)
  {
  }

  /** The fallback branch changes nothing: split()[-1] of a text without " - " is the text itself. */
  lemma DisplayNameIsTrimmedLastSegment(text: string)
    ensures DisplayName(text) == Trim(LastSegment(text, SEP))
  {
  }

  /** A display name neither starts nor ends with whitespace. */
  lemma DisplayNameStripped(text: string)
    ensures var name := DisplayName(text);
      name == [] || (!IsSpace(name[0]) && !IsSpace(name[|name| - 1]))
  {
    TrimSpec(if Contains(text, SEP) then LastSegment(text, SEP) else text);
  }

  /** The stripped text is a piece of the original that holds no " - " when the original holds none. */
  lemma {:induction false} TrimKeepsNoSeparator(s: string)
    requires !Contains(s, SEP)
    ensures !Contains(Trim(s), SEP)
    ensures Contains(s, Trim(s))
  {
    var r := Trim(s);
    TrimSpec(s);
    var i: nat :| PaddedAt(s, r, i);
    assert s[i..i + |r|] == r;
    NoSeparatorInSlice(s, SEP, i, i + |r|);
  }

  /** A piece of a suffix of `s` is a piece of `s`. */
  lemma {:induction false} PieceOfSuffix(s: string, suffix: string, piece: string)
    requires |suffix| <= |s| && s[|s| - |suffix|..] == suffix
    requires Contains(suffix, piece)
    ensures Contains(s, piece)
  {
    var i :| 0 <= i <= |suffix| && OccursAt(suffix, piece, i);
    var start := |s| - |suffix|;
    assert s[start..|s|] == suffix;
    OccursInSlice(s, piece, start, |s|, i);
  }

  /** A display name never holds " - ", and it is a piece of its label text. */
  lemma DisplayNameHasNoSeparator(text: string)
    ensures !Contains(DisplayName(text), SEP)
    ensures Contains(text, DisplayName(text))
  {
    var seg := LastSegment(text, SEP);
    DisplayNameIsTrimmedLastSegment(text);
    TrimKeepsNoSeparator(seg);
    PieceOfSuffix(text, seg, Trim(seg));
  }

  /** Every occurrence of " - " puts a dash after its first character, so text without such a dash holds none. */
  lemma {:induction false} NoSeparatorWithoutDash(s: string)
    requires |s| > 0 ==> '-' !in s[1..]
    ensures !Contains(s, SEP)
  {
    forall i | 0 <= i <= |s| ensures !OccursAt(s, SEP, i) {
      if i + 3 <= |s| {
        assert s[i + 1] == s[1..][i];
      }
    }
  }

  /** The first split point of `p + " - " + q` is right after `p` when `p` holds no dash. */
  lemma {:induction false} FirstSplitAfter(p: string, q: string)
    requires '-' !in p
    ensures Find(p + SEP + q, SEP) == Some(|p|)
  {
    var s := p + SEP + q;
    assert |SEP| == 3 && s[|p|..|p| + 3] == SEP;
    assert OccursAt(s, SEP, |p|);
    forall j | 0 <= j < |p| ensures !OccursAt(s, SEP, j) {
      assert s[j + 1] != '-' by {
        if j + 1 < |p| {
          assert s[j + 1] == p[j + 1];
        } else {
          assert s[j + 1] == ' ';
        }
      }
    }
    assert Contains(s, SEP);
    var r := Find(s, SEP);
    assert r.Some? && OccursAt(s, SEP, r.value);
    assert !(r.value < |p|);
    assert !(|p| < r.value);
  }

  /** The name of a label with one split point is the stripped text after it. */
  lemma {:induction false} DisplayNameOfOneSplit(p: string, q: string)
    requires '-' !in p
    requires !Contains(q, SEP)
    ensures DisplayName(p + SEP + q) == Trim(q)
  {
    var text := p + SEP + q;
    DisplayNameIsTrimmedLastSegment(text);
    FirstSplitAfter(p, q);
    assert text[|p| + |SEP|..] == q;
    assert Split(q, SEP) == [q];
    assert Split(text, SEP) == [p] + [q];
  }

  /** Leading whitespace is all that lstrip removes. */
  lemma {:induction false} TrimStartSkipsSpace(pad: string, t: string)
    requires AllSpace(pad)
    ensures TrimStart(pad + t) == TrimStart(t)
  {
    if pad == [] {
      assert pad + t == t;
    } else {
      assert (pad + t)[0] == pad[0] && IsSpace(pad[0]);
      assert (pad + t)[1..] == pad[1..] + t;
      TrimStartSkipsSpace(pad[1..], t);
    }
  }

  /** Trailing whitespace is all that rstrip removes. */
  lemma {:induction false} TrimEndSkipsSpace(t: string, pad: string)
    requires AllSpace(pad)
    ensures TrimEnd(t + pad) == TrimEnd(t)
  {
    if pad == [] {
      assert t + pad == t;
    } else {
      var shorter := pad[..|pad| - 1];
      assert (t + pad)[|t + pad| - 1] == pad[|pad| - 1] && IsSpace(pad[|pad| - 1]);
      assert (t + pad)[..|t + pad| - 1] == t + shorter;
      TrimEndSkipsSpace(t, shorter);
    }
  }

  /**
   * strip is determined by the padding: text that neither starts nor ends with
   * whitespace, surrounded by whitespace, strips to itself.
   */
  lemma TrimPadded(before: string, r: string, after: string)
    requires AllSpace(before) && AllSpace(after)
    requires r == [] || (!IsSpace(r[0]) && !IsSpace(r[|r| - 1]))
    ensures Trim(before + r + after) == r
  {
    assert before + r + after == before + (r + after);
    TrimStartSkipsSpace(before, r + after);
    TrimEndSkipsSpace(r, after);
    if r == [] {
      assert r + after == after;
      TrimStartSkipsSpace(after, []);
      assert after + [] == after;
    } else {
      assert (r + after)[0] == r[0];
      assert TrimStart(r + after) == r + after;
    }
  }

  /** The question of a typical label, before its " - ". */
  const QUESTION: string := "Please rank"
  /** The course named by that label. */
  const COURSE: string := "Advanced Tax"

  /** The typical label "Please rank - Advanced Tax" names the course "Advanced Tax". */
  lemma DisplayNameExample()
    ensures DisplayName(QUESTION + SEP + COURSE) == COURSE
  {
    NoSeparatorWithoutDash(COURSE);
    DisplayNameOfOneSplit(QUESTION, COURSE);
    TrimPadded([], COURSE, []);
    assert [] + COURSE + [] == COURSE;
  }

  /** A label without " - " is kept whole, only stripped. */
  lemma DisplayNameFallbackExample()
    ensures DisplayName("  Ethics ") == "Ethics"
  {
    var before, q, after := "  ", "Ethics", " ";
    calc {
      DisplayName("  Ethics ");
      { assert "  Ethics " == before + q + after; }
      DisplayName(before + q + after);
      { NoSeparatorWithoutDash(before + q + after); }
      Trim(before + q + after);
      { TrimPadded(before, q, after); }
      q;
    }
  }

  /**
   * Split points are found left to right without overlap, so in "Tax - - Audit"
   * the second " - " (which overlaps the first) is not a split point and the
   * name is "- Audit", not "Audit".
   */
  lemma DisplayNameOverlapExample()
    ensures DisplayName("Tax - - Audit") == "- Audit"
  {
    var p, q := "Tax", "- Audit";
    calc {
      DisplayName("Tax - - Audit");
      { assert "Tax - - Audit" == p + " - " + q; }
      DisplayName(p + " - " + q);
      { NoSeparatorWithoutDash(q); DisplayNameOfOneSplit(p, q); }
      Trim(q);
      { TrimPadded([], q, []); assert [] + q + [] == q; }
      q;
    }
  }
}
