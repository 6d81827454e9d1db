/**
 * The few string operations of Python that the pipeline relies on, over ASCII:
 * `str.isspace`, `str.strip`, `str.lower`, `sep.join`, `+=` concatenation and
 * the substring test `needle in hay`.
 */
module Strings {

  /** `c.isspace()` for the ASCII range: space, \t \n \v \f \r and the separators 0x1C-0x1F. */
  predicate IsSpace(c: char) {
    c == ' ' || ('\t' <= c <= '\r') || ('\U{1C}' <= c <= '\U{1F}')
  }

  predicate AllSpace(s: string) {
    forall i :: 0 <= i < |s| ==> IsSpace(s[i])
  }

  /** Neither end of `s` is whitespace: what `str.strip()` leaves behind. */
  predicate IsStripped(s: string) {
    s == [] || (!IsSpace(s[0]) && !IsSpace(s[|s| - 1]))
  }

  /** `needle` sits in `hay` starting at index `i`. */
  predicate OccursAt(hay: string, needle: string, i: int) {
    0 <= i && i + |needle| <= |hay| && hay[i..i + |needle|] == needle
  }

  function TrimLeft(s: string): (r: string)
    ensures |r| <= |s| && r == s[|s| - |r|..]
    ensures r == [] || !IsSpace(r[0])
    ensures forall i :: 0 <= i < |s| - |r| ==> IsSpace(s[i])
  {
    if s != [] && IsSpace(s[0]) then TrimLeft(s[1..]) else s
  }

  function TrimRight(s: string): (r: string)
    ensures |r| <= |s| && r == s[..|r|]
    ensures r == [] || !IsSpace(r[|r| - 1])
    ensures forall i :: |r| <= i < |s| ==> IsSpace(s[i])
  {
    if s != [] && IsSpace(s[|s| - 1]) then TrimRight(s[..|s| - 1]) else s
  }

  /** `r` sits in `s` at `a`, with only whitespace before and after it. */
  predicate TrimmedAt(s: string, r: string, a: int) {
    OccursAt(s, r, a) && AllSpace(s[..a]) && AllSpace(s[a + |r|..])
  }

  /** `s.strip()`: the infix of `s` left after removing whitespace at both ends. */
  function Strip(s: string): (r: string)
    ensures IsStripped(r)
    ensures exists a :: TrimmedAt(s, r, a)
    ensures r == [] <==> AllSpace(s)
    ensures IsStripped(s) ==> r == s
  {
    var t := TrimLeft(s);
    var r := TrimRight(t);
    StripFacts(s, t, r);
    r
  }

  lemma StripFacts(s: string, t: string, r: string)
    requires t == TrimLeft(s) && r == TrimRight(t)
    ensures IsStripped(r)
    ensures TrimmedAt(s, r, |s| - |t|)
    ensures r == [] <==> AllSpace(s)
    ensures IsStripped(s) ==> r == s
  {
    StripInfix(s, t, r);
    StripEmpty(s);
    StripStripped(s);
  }

  /** What the two trims remove is whitespace. */
  lemma StripInfix(s: string, t: string, r: string)
    requires t == TrimLeft(s) && r == TrimRight(t)
    ensures TrimmedAt(s, r, |s| - |t|)
  {
    InfixOfSuffix(s, t, r, |s| - |t|);
    TrimLeftSpace(s);
    TrimRightSpace(t);
  }

  /** A prefix `r` of the suffix `t` of `s` starting at `a` occurs in `s` at `a`, followed by the rest of `t`. */
  lemma InfixOfSuffix(s: string, t: string, r: string, a: nat)
    requires a <= |s| && t == s[a..] && |r| <= |t| && r == t[..|r|]
    ensures OccursAt(s, r, a) && s[a + |r|..] == t[|r|..]
  {
    assert s[a..][..|r|] == s[a..a + |r|];
  }

  lemma TrimLeftSpace(s: string)
    ensures AllSpace(s[..|s| - |TrimLeft(s)|])
  {
    var a := |s| - |TrimLeft(s)|;
    assert forall i :: 0 <= i < a ==> s[..a][i] == s[i];
  }

  lemma TrimRightSpace(t: string)
    ensures AllSpace(t[|TrimRight(t)|..])
  {
    var b := |TrimRight(t)|;
    assert forall i :: 0 <= i < |t| - b ==> t[b..][i] == t[b + i];
  }

  lemma StripEmpty(s: string)
    ensures TrimRight(TrimLeft(s)) == [] <==> AllSpace(s)
  {
    var t := TrimLeft(s);
    var r := TrimRight(t);
    if AllSpace(s) {
      assert AllSpace(t);
      AllSpaceTrimRight(t);
    }
  }

  lemma AllSpaceTrimRight(t: string)
    requires AllSpace(t)
    ensures TrimRight(t) == []
  {
  }

  lemma StripStripped(s: string)
    ensures IsStripped(s) ==> TrimRight(TrimLeft(s)) == s
  {
  }

  lemma StripIdempotent(s: string)
    ensures Strip(Strip(s)) == Strip(s)
  {
  }

  function LowerChar(c: char): char {
    if 'A' <= c <= 'Z' then (c as int + 32) as char else c
  }

  /** `s.lower()` restricted to ASCII letters. */
  function Lower(s: string): (r: string)
    ensures |r| == |s|
    ensures forall i :: 0 <= i < |s| ==> r[i] == LowerChar(s[i])
  {
    seq(|s|, i requires 0 <= i < |s| => LowerChar(s[i]))
  }

  lemma LowerIdempotent(s: string)
    ensures Lower(Lower(s)) == Lower(s)
  {
    assert forall i :: 0 <= i < |s| ==> Lower(Lower(s))[i] == Lower(s)[i];
  }

  lemma LowerSlice(s: string, a: nat, b: nat)
    requires a <= b <= |s|
    ensures Lower(s)[a..b] == Lower(s[a..b])
  {
  }

  /** `sep.join(parts)`. */
  function Join(parts: seq<string>, sep: string): string {
    if |parts| == 0 then ""
    else if |parts| == 1 then parts[0]
    else Join(parts[..|parts| - 1], sep) + sep + parts[|parts| - 1]
  }

  /** Joining whitespace with whitespace gives whitespace. */
  lemma {:induction false} JoinAllSpace(parts: seq<string>, sep: string)
    requires AllSpace(sep)
    requires forall i :: 0 <= i < |parts| ==> AllSpace(parts[i])
    ensures AllSpace(Join(parts, sep))
  {
    if |parts| > 1 {
      JoinAllSpace(parts[..|parts| - 1], sep);
      var front := Join(parts[..|parts| - 1], sep);
      var whole := front + sep + parts[|parts| - 1];
      forall i | 0 <= i < |whole| ensures IsSpace(whole[i]) {
        if i < |front| {
          assert whole[i] == front[i];
        } else if i < |front| + |sep| {
          assert whole[i] == sep[i - |front|];
        } else {
          assert whole[i] == parts[|parts| - 1][i - |front| - |sep|];
        }
      }
    }
  }

  /** The accumulation `total += part` over `parts`, starting from "". */
  function Concat(parts: seq<string>): string {
    if |parts| == 0 then "" else Concat(parts[..|parts| - 1]) + parts[|parts| - 1]
  }

  /** Total number of characters in `parts`. */
  function TotalLength(parts: seq<string>): nat {
    if |parts| == 0 then 0 else TotalLength(parts[..|parts| - 1]) + |parts[|parts| - 1]|
  }

  /** Concatenation with no separator loses and adds no character. */
  lemma {:induction false} ConcatLength(parts: seq<string>)
    ensures |Concat(parts)| == TotalLength(parts)
  {
    if |parts| > 0 {
      ConcatLength(parts[..|parts| - 1]);
    }
  }

  /** Python's `needle in hay` on strings. */
  function Contains(hay: string, needle: string): bool
    decreases |hay|
  {
    if |needle| > |hay| then false
    else if hay[..|needle|] == needle then true
    else Contains(hay[1..], needle)
  }

  /** The substring test agrees with its reference definition by position. */
  lemma {:induction false} ContainsIff(hay: string, needle: string)
    ensures Contains(hay, needle) <==> exists i :: OccursAt(hay, needle, i)
    decreases |hay|
  {
    if |needle| > |hay| {
    } else if hay[..|needle|] == needle {
      assert OccursAt(hay, needle, 0);
    } else {
      ContainsIff(hay[1..], needle);
      if Contains(hay[1..], needle) {
        var i :| OccursAt(hay[1..], needle, i);
        assert hay[1..][i..i + |needle|] == hay[i + 1..i + 1 + |needle|];
        assert OccursAt(hay, needle, i + 1);
      } else {
        forall i | OccursAt(hay, needle, i) ensures false {
          assert i != 0;
          assert hay[1..][i - 1..i - 1 + |needle|] == hay[i..i + |needle|];
          assert OccursAt(hay[1..], needle, i - 1);
        }
      }
    }
  }
}
