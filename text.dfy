/**
 * The handful of Python string operations the ingestion logic relies on:
 * `str.strip()`, `str.lower()`, `' '.join(...)` and the substring test `p in s`.
 */
module Text {

  /** The characters for which Python's `str.isspace()` holds; `str.strip()` with
      no argument removes exactly these from both ends. */
  predicate IsSpace(c: char) {
    || ('\t' <= c <= '\r')                  // \t \n \x0b \x0c \r
    || ('\U{1C}' <= c <= '\U{1F}')          // file, group, record and unit separators
    || c == ' ' || c == '\U{85}' || c == '\U{A0}' || c == '\U{1680}'
    || ('\U{2000}' <= c <= '\U{200A}')
    || c == '\U{2028}' || c == '\U{2029}' || c == '\U{202F}' || c == '\U{205F}' || c == '\U{3000}'
  }

  /** Removes leading whitespace. */
  function LStrip(s: string): (r: string)
    ensures |r| <= |s| && r == s[|s| - |r|..]
    ensures forall i :: 0 <= i < |s| - |r| ==> IsSpace(s[i])
    ensures r != [] ==> !IsSpace(r[0])
  {
    if s != [] && IsSpace(s[0]) then LStrip(s[1..]) else s
  }

  /** Removes trailing whitespace. */
  function RStrip(s: string): (r: string)
    ensures |r| <= |s| && r == s[..|r|]
    ensures forall i :: |r| <= i < |s| ==> IsSpace(s[i])
    ensures r != [] ==> !IsSpace(r[|r| - 1])
  {
    if s != [] && IsSpace(s[|s| - 1]) then RStrip(s[..|s| - 1]) else s
  }

  /** Python's `s.strip()`. */
  function Strip(s: string): string {
    RStrip(LStrip(s))
  }

  /** What `str.strip()` leaves starts and ends with a non-whitespace character. */
  lemma StripEnds(s: string)
    ensures Strip(s) != [] ==> !IsSpace(Strip(s)[0]) && !IsSpace(Strip(s)[|Strip(s)| - 1])
  {
    var l := LStrip(s);
    var r := RStrip(l);
    if r != [] {
      assert r[0] == l[0];
    }
  }

  /** Python's `str.lower()` on one character, for the ASCII letters. */
  function LowerChar(c: char): char {
    if 'A' <= c <= 'Z' then (c as int + 32) as char else c
  }

  /** Python's `s.lower()`, character by character. */
  function Lower(s: string): (r: string)
    ensures |r| == |s|
  {
    seq(|s|, i requires 0 <= i < |s| => LowerChar(s[i]))
  }

  /** Python's `' '.join(parts)`. */
  function JoinWithSpace(parts: seq<string>): string {
    if |parts| == 0 then ""
    else if |parts| == 1 then parts[0]
    else parts[0] + " " + JoinWithSpace(parts[1..])
  }

  /** `p` occurs in `s` starting at index `i`. */
  predicate OccursAt(s: string, p: string, i: int) {
    0 <= i && i + |p| <= |s| && s[i..i + |p|] == p
  }

  /** Python's `p in s`. */
  function Contains(s: string, p: string): (r: bool)
    ensures r <==> exists i :: OccursAt(s, p, i)
    decreases |s|
  {
    if OccursAt(s, p, 0) then true
    else if s == [] then false
    else
      assert (exists i :: OccursAt(s, p, i)) <==> (exists j :: OccursAt(s[1..], p, j)) by {
        forall i | OccursAt(s, p, i) ensures OccursAt(s[1..], p, i - 1) {
          assert s[1..][i - 1..i - 1 + |p|] == s[i..i + |p|];
        }
        forall j | OccursAt(s[1..], p, j) ensures OccursAt(s, p, j + 1) {
          assert s[1..][j..j + |p|] == s[j + 1..j + 1 + |p|];
        }
      }
      Contains(s[1..], p)
  }

  /** A substring of a substring is a substring. */
  lemma ContainsTransitive(s: string, t: string, p: string)
    requires Contains(s, t) && Contains(t, p)
    ensures Contains(s, p)
  {
  }

  /** Every string contains itself. */
  lemma ContainsSelf(s: string)
    ensures Contains(s, s)
  {
  }

  /** An occurrence survives appending text on either side. */
  lemma ContainsInConcat(a: string, m: string, b: string, p: string)
    requires Contains(m, p)
    ensures Contains(a + m + b, p)
  {
    var i :| OccursAt(m, p, i);
    assert (a + m + b)[|a| + i..|a| + i + |p|] == m[i..i + |p|];
    assert OccursAt(a + m + b, p, |a| + i);
  }

  /** Lowercasing maps an occurrence of `p` to an occurrence of `Lower(p)`. */
  lemma LowerKeepsOccurrence(s: string, p: string)
    requires Contains(s, p)
    ensures Contains(Lower(s), Lower(p))
  {
    var i :| OccursAt(s, p, i);
    assert Lower(s)[i..i + |p|] == Lower(p);
    assert OccursAt(Lower(s), Lower(p), i);
  }

  /** Each joined part is a substring of the joined text. */
  lemma {:induction false} JoinContainsPart(parts: seq<string>, k: nat)
    requires k < |parts|
    ensures Contains(JoinWithSpace(parts), parts[k])
  {
    if |parts| == 1 {
      ContainsSelf(parts[0]);
    } else if k == 0 {
      ContainsSelf(parts[0]);
      ContainsInConcat([], parts[0], " " + JoinWithSpace(parts[1..]), parts[0]);
      assert [] + parts[0] + (" " + JoinWithSpace(parts[1..])) == JoinWithSpace(parts);
    } else {
      JoinContainsPart(parts[1..], k - 1);
      ContainsInConcat(parts[0] + " ", JoinWithSpace(parts[1..]), [], parts[k]);
      assert parts[0] + " " + JoinWithSpace(parts[1..]) + [] == JoinWithSpace(parts);
    }
  }

  /** `Strip(s)` is the slice `s[a..b]` with only whitespace outside it. */
  lemma StripIsSlice(s: string) returns (a: nat, b: nat)
    ensures a <= b <= |s| && Strip(s) == s[a..b]
    ensures forall i :: 0 <= i < a ==> IsSpace(s[i])
    ensures forall i :: b <= i < |s| ==> IsSpace(s[i])
  {
    var l := LStrip(s);
    a := |s| - |l|;
    b := a + |Strip(s)|;
    forall i | b <= i < |s| ensures IsSpace(s[i]) {
      assert s[i] == l[i - a];
    }
  }

  /** An occurrence inside a slice is an occurrence in the whole. */
  lemma SliceOccurrence(s: string, a: nat, b: nat, p: string, i: int)
    requires a <= b <= |s| && OccursAt(s[a..b], p, i)
    ensures OccursAt(s, p, a + i)
  {
    forall k | 0 <= k < |p| ensures s[a + i + k] == p[k] {
      assert s[a + i + k] == s[a..b][i + k] == s[a..b][i..i + |p|][k];
    }
    assert s[a + i..a + i + |p|] == p;
  }

  /** An occurrence that starts and ends on non-whitespace lies inside any slice
      that only cuts whitespace off the ends. */
  lemma OccurrenceInTrimmed(s: string, a: nat, b: nat, p: string, i: int)
    requires a <= b <= |s|
    requires forall k :: 0 <= k < a ==> IsSpace(s[k])
    requires forall k :: b <= k < |s| ==> IsSpace(s[k])
    requires p != [] && !IsSpace(p[0]) && !IsSpace(p[|p| - 1])
    requires OccursAt(s, p, i)
    ensures OccursAt(s[a..b], p, i - a)
  {
    assert s[i] == s[i..i + |p|][0] == p[0];
    assert s[i + |p| - 1] == s[i..i + |p|][|p| - 1] == p[|p| - 1];
    assert a <= i && i + |p| <= b;
    forall k | 0 <= k < |p| ensures s[a..b][i - a + k] == p[k] {
      assert s[a..b][i - a + k] == s[i + k] == s[i..i + |p|][k];
    }
    assert s[a..b][i - a..i - a + |p|] == p;
  }

  /** Cutting whitespace off both ends never creates or removes an occurrence of
      a pattern that neither starts nor ends with whitespace. */
  lemma TrimKeepsContains(s: string, a: nat, b: nat, p: string)
    requires a <= b <= |s|
    requires forall i :: 0 <= i < a ==> IsSpace(s[i])
    requires forall i :: b <= i < |s| ==> IsSpace(s[i])
    requires p != [] && !IsSpace(p[0]) && !IsSpace(p[|p| - 1])
    ensures Contains(s[a..b], p) <==> Contains(s, p)
  {
    if Contains(s[a..b], p) {
      var i :| OccursAt(s[a..b], p, i);
      SliceOccurrence(s, a, b, p, i);
    }
    if Contains(s, p) {
      var i :| OccursAt(s, p, i);
      OccurrenceInTrimmed(s, a, b, p, i);
    }
  }

  /** Stripping never creates or removes an occurrence of a pattern that neither
      starts nor ends with whitespace. */
  lemma StripKeepsContains(s: string, p: string)
    requires p != [] && !IsSpace(p[0]) && !IsSpace(p[|p| - 1])
    ensures Contains(Strip(s), p) <==> Contains(s, p)
  {
    var a, b := StripIsSlice(s);
    TrimKeepsContains(s, a, b, p);
  }

  /** Lowercasing and stripping commute: no ASCII letter is whitespace. */
  lemma LowerStripCommute(s: string)
    ensures Lower(Strip(s)) == Strip(Lower(s))
  {
    LowerLStrip(s);
    LowerRStrip(LStrip(s));
  }

  /** Lowercasing neither makes nor unmakes whitespace. */
  lemma LowerCharKeepsSpace(c: char)
    ensures IsSpace(LowerChar(c)) <==> IsSpace(c)
  {
  }

  lemma {:induction false} LowerLStrip(s: string)
    ensures Lower(LStrip(s)) == LStrip(Lower(s))
    decreases |s|
  {
    if s == [] {
      assert Lower(s) == [];
    } else {
      var ls := Lower(s);
      assert ls[0] == LowerChar(s[0]);
      LowerCharKeepsSpace(s[0]);
      if IsSpace(s[0]) {
        assert Lower(s[1..]) == ls[1..];
        LowerLStrip(s[1..]);
        assert LStrip(ls) == LStrip(ls[1..]);
      } else {
        assert LStrip(s) == s;
        assert LStrip(ls) == ls;
      }
    }
  }

  lemma {:induction false} LowerRStrip(s: string)
    ensures Lower(RStrip(s)) == RStrip(Lower(s))
    decreases |s|
  {
    if s == [] {
      assert Lower(s) == [];
    } else {
      var ls := Lower(s);
      assert ls[|s| - 1] == LowerChar(s[|s| - 1]);
      LowerCharKeepsSpace(s[|s| - 1]);
      if IsSpace(s[|s| - 1]) {
        assert Lower(s[..|s| - 1]) == ls[..|s| - 1];
        LowerRStrip(s[..|s| - 1]);
        assert RStrip(ls) == RStrip(ls[..|s| - 1]);
      } else {
        assert RStrip(s) == s;
        assert RStrip(ls) == ls;
      }
    }
  }
}
