/**
 Strings as the platform takes them apart: splitting on a character, joining,
 trimming. `char` is a Unicode scalar value; letter case is ASCII only, as the
 source's own calls are.
 */
module Text {

  /** The parts of `s` between the separators: always at least one. */
  function Split(s: string, c: char): (parts: seq<string>)
    ensures |parts| > 0
    ensures forall part <- parts :: c !in part
  {
    if s == "" then [""] else
    var rest := Split(s[1..], c);
    if s[0] == c then [""] + rest else [[s[0]] + rest[0]] + rest[1..]
  }

  function Join(parts: seq<string>, sep: string): string {
    if |parts| == 0 then ""
    else if |parts| == 1 then parts[0]
    else parts[0] + sep + Join(parts[1..], sep)
  }

  lemma {:induction false} SplitNone(s: string, c: char)
    requires c !in s
    ensures Split(s, c) == [s]
  {
    if s != "" {
      SplitNone(s[1..], c);
      assert s[0] in s && s == [s[0]] + s[1..];
    }
  }

  lemma {:induction false} SplitFirst(a: string, c: char, b: string)
    requires c !in a
    ensures Split(a + [c] + b, c) == [a] + Split(b, c)
  {
    var s := a + [c] + b;
    if a == "" {
      assert s[1..] == b;
    } else {
      assert s[1..] == a[1..] + [c] + b;
      assert s[0] == a[0] && a[0] in a && a == [a[0]] + a[1..];
      SplitFirst(a[1..], c, b);
    }
  }

  lemma {:induction false} SplitJoin(parts: seq<string>, c: char)
    requires |parts| > 0
    requires forall part <- parts :: c !in part
    ensures Split(Join(parts, [c]), c) == parts
  {
    if |parts| == 1 {
      SplitNone(parts[0], c);
    } else {
      SplitFirst(parts[0], c, Join(parts[1..], [c]));
      SplitJoin(parts[1..], c);
    }
  }

  lemma {:induction false} JoinAppend(a: seq<string>, b: seq<string>, sep: string)
    requires |a| > 0 && |b| > 0
    ensures Join(a + b, sep) == Join(a, sep) + sep + Join(b, sep)
  {
    if |a| == 1 {
      assert (a + b)[1..] == b;
    } else {
      assert (a + b)[1..] == a[1..] + b;
      JoinAppend(a[1..], b, sep);
    }
  }

  lemma {:induction false} JoinSplit(s: string, c: char)
    ensures Join(Split(s, c), [c]) == s
  {
    if s != "" {
      JoinSplit(s[1..], c);
      var rest := Split(s[1..], c);
      assert s == [s[0]] + s[1..];
      if s[0] == c {
        assert ([""] + rest)[1..] == rest;
      } else {
        assert ([[s[0]] + rest[0]] + rest[1..])[1..] == rest[1..];
      }
    }
  }

  /** Whatever follows joined parts splits on its own. */
  lemma SplitAfter(parts: seq<string>, c: char, tail: string)
    requires |parts| > 0
    requires forall part <- parts :: c !in part
    ensures Split(Join(parts, [c]) + [c] + tail, c) == parts + Split(tail, c)
  {
    JoinSplit(tail, c);
    JoinAppend(parts, Split(tail, c), [c]);
    SplitJoin(parts + Split(tail, c), c);
  }

  predicate StartsWith(s: string, prefix: string) {
    prefix <= s
  }

  predicate EndsWith(s: string, tail: string) {
    |tail| <= |s| && s[|s| - |tail|..] == tail
  }

  /** The last part is what follows the last separator. */
  lemma LastPart(s: string, c: char)
    ensures EndsWith(s, Split(s, c)[|Split(s, c)| - 1])
    ensures |Split(s, c)| > 1 <==> c in s
    ensures |Split(s, c)| > 1 ==> EndsWith(s, [c] + Split(s, c)[|Split(s, c)| - 1])
  {
    var parts := Split(s, c);
    var last := parts[|parts| - 1];
    JoinSplit(s, c);
    if |parts| == 1 {
      assert s == last;
    } else {
      var front := parts[..|parts| - 1];
      assert parts == front + [last];
      JoinAppend(front, [last], [c]);
      AfterSeparator(Join(front, [c]), c, last);
    }
  }

  lemma AfterSeparator(before: string, c: char, last: string)
    ensures var s := before + [c] + last;
            EndsWith(s, last) && EndsWith(s, [c] + last) && c in s
  {
    var s := before + [c] + last;
    assert s == before + ([c] + last) && s[|before|] == c;
  }

  lemma PartBehind(front: string, c: char, tail: string)
    requires c !in tail
    ensures var parts := Split(front + ([c] + tail), c); parts[|parts| - 1] == tail
  {
    var parts := Split(front, c);
    JoinSplit(front, c);
    assert front + ([c] + tail) == Join(parts, [c]) + [c] + tail;
    SplitAfter(parts, c, tail);
    SplitNone(tail, c);
  }

  /** And the other way: ending in a separator and `tail`, with none in it, is having it for last part. */
  lemma EndsInPart(s: string, c: char, tail: string)
    requires c !in tail
    ensures EndsWith(s, [c] + tail) <==> c in s && Split(s, c)[|Split(s, c)| - 1] == tail
  {
    LastPart(s, c);
    if EndsWith(s, [c] + tail) {
      var front := s[..|s| - |tail| - 1];
      assert s == front + ([c] + tail);
      PartBehind(front, c, tail);
      assert s[|front|] == c;
    }
  }

  /** `s.trim_end_matches(c)`. */
  function TrimEnd(s: string, c: char): (t: string)
    ensures t <= s
    ensures |t| > 0 ==> t[|t| - 1] != c
  {
    if |s| > 0 && s[|s| - 1] == c then TrimEnd(s[..|s| - 1], c) else s
  }

  /** `s.trim_start_matches(c)`. */
  function TrimStart(s: string, c: char): (t: string)
    ensures |t| <= |s| && t == s[|s| - |t|..]
    ensures |t| > 0 ==> t[0] != c
  {
    if |s| > 0 && s[0] == c then TrimStart(s[1..], c) else s
  }

  /** Only that character goes. */
  lemma {:induction false} TrimEndTakes(s: string, c: char)
    ensures forall i | |TrimEnd(s, c)| <= i < |s| :: s[i] == c
  {
    if |s| > 0 && s[|s| - 1] == c {
      TrimEndTakes(s[..|s| - 1], c);
    }
  }

  lemma {:induction false} TrimStartTakes(s: string, c: char)
    ensures forall i | 0 <= i < |s| - |TrimStart(s, c)| :: s[i] == c
  {
    if |s| > 0 && s[0] == c {
      TrimStartTakes(s[1..], c);
      assert forall i | 0 < i < |s| :: s[i] == s[1..][i - 1];
    }
  }

  /** The first `n` characters, or all of them. */
  function Take(s: string, n: nat): string {
    if |s| <= n then s else s[..n]
  }

  predicate IsLower(c: char) {
    'a' <= c <= 'z'
  }

  predicate IsUpper(c: char) {
    'A' <= c <= 'Z'
  }

  predicate IsDigit(c: char) {
    '0' <= c <= '9'
  }

  predicate IsAlphanumeric(c: char) {
    IsLower(c) || IsUpper(c) || IsDigit(c)
  }

  function LowerChar(c: char): char {
    if IsUpper(c) then c - 'A' + 'a' else c
  }

  /** `to_ascii_lowercase`. */
  function Lower(s: string): (t: string)
    ensures |t| == |s|
    ensures forall i | 0 <= i < |s| :: t[i] == LowerChar(s[i])
  {
    seq(|s|, i requires 0 <= i < |s| => LowerChar(s[i]))
  }

  /** Unicode's White_Space, which `str::trim` removes from both ends. */
  predicate IsSpace(c: char) {
    var n := c as int;
    || 0x09 <= n <= 0x0d
    || n in {0x20, 0x85, 0xa0, 0x1680, 0x2028, 0x2029, 0x202f, 0x205f, 0x3000}
    || 0x2000 <= n <= 0x200a
  }

  /** `str::trim`. */
  function Trim(s: string): (t: string)
    ensures Trimmed(t)
    ensures |t| <= |s|
    ensures Trimmed(s) ==> t == s
    ensures forall c <- t :: c in s
  {
    if |s| > 0 && IsSpace(s[0]) then Trim(s[1..])
    else if |s| > 0 && IsSpace(s[|s| - 1]) then Trim(s[..|s| - 1])
    else s
  }

  /** `t` is what is there from `from` on, and white space is all there is before and behind it. */
  ghost predicate InSpace(s: string, t: string, from: nat) {
    && from + |t| <= |s| && (forall i | 0 <= i < |t| :: t[i] == s[from + i])
    && forall i | 0 <= i < |s| && !(from <= i < from + |t|) :: IsSpace(s[i])
  }

  lemma SpaceAhead(c: char, s: string, t: string, from: nat)
    requires IsSpace(c) && InSpace(s, t, from)
    ensures InSpace([c] + s, t, from + 1)
  {
  }

  lemma SpaceBehind(s: string, c: char, t: string, from: nat)
    requires IsSpace(c) && InSpace(s, t, from)
    ensures InSpace(s + [c], t, from)
  {
  }

  /** Only white space goes, and only from the ends. */
  lemma {:induction false} TrimTakesSpace(s: string) returns (from: nat)
    ensures InSpace(s, Trim(s), from)
  {
    if |s| > 0 && IsSpace(s[0]) {
      var rest := TrimTakesSpace(s[1..]);
      SpaceAhead(s[0], s[1..], Trim(s), rest);
      assert s == [s[0]] + s[1..];
      from := rest + 1;
    } else if |s| > 0 && IsSpace(s[|s| - 1]) {
      from := TrimTakesSpace(s[..|s| - 1]);
      SpaceBehind(s[..|s| - 1], s[|s| - 1], Trim(s), from);
      assert s == s[..|s| - 1] + [s[|s| - 1]];
    } else {
      from := 0;
    }
  }

  predicate Trimmed(s: string) {
    |s| > 0 ==> !IsSpace(s[0]) && !IsSpace(s[|s| - 1])
  }

  /** The order of `str`: by the first character that differs, a prefix first. */
  predicate TextLess(a: string, b: string) {
    b != "" && (a == "" || a[0] < b[0] || (a[0] == b[0] && TextLess(a[1..], b[1..])))
  }

  lemma {:induction false} TextLessTotal(a: string, b: string)
    ensures a == b || TextLess(a, b) || TextLess(b, a)
    ensures !(TextLess(a, b) && TextLess(b, a))
    ensures !TextLess(a, a)
  {
    if a != "" {
      TextLessTotal(a[1..], a[1..]);
      if b != "" && a[0] == b[0] {
        TextLessTotal(a[1..], b[1..]);
        assert a == [a[0]] + a[1..] && b == [b[0]] + b[1..];
      }
    }
  }

  lemma {:induction false} TextLessTransitive(a: string, b: string, c: string)
    requires TextLess(a, b) && TextLess(b, c)
    ensures TextLess(a, c)
  {
    if a != "" && a[0] == b[0] && b[0] == c[0] {
      TextLessTransitive(a[1..], b[1..], c[1..]);
    }
  }
}
