/** String helpers the risk gate relies on: the decimal text of an index
    (template interpolation), first-occurrence search and replacement
    (`String.prototype.replace` with a string pattern) and `Array.prototype.join`. */
module Text {

  predicate IsDigit(c: char) {
    '0' <= c <= '9'
  }

  function DigitChar(d: nat): (c: char)
    requires d < 10
    ensures IsDigit(c)
  {
    ('0' as int + d) as char
  }

  function DigitValue(c: char): nat
    requires IsDigit(c)
  {
    c as int - '0' as int
  }

  /** The decimal text of `n`, most significant digit first, as `${n}` renders it. */
  function NatToString(n: nat): (s: string)
    ensures |s| >= 1
    ensures forall k :: 0 <= k < |s| ==> IsDigit(s[k])
    ensures n >= 10 ==> |s| >= 2
  {
    if n < 10 then [DigitChar(n)] else NatToString(n / 10) + [DigitChar(n % 10)]
  }

  /** The number a string of decimal digits denotes. */
  function DecimalValue(s: string): nat
    requires forall k :: 0 <= k < |s| ==> IsDigit(s[k])
  {
    if s == [] then 0 else DecimalValue(s[..|s| - 1]) * 10 + DigitValue(s[|s| - 1])
  }

  /** Reading the decimal text back gives the number: the rendering loses nothing. */
  lemma {:induction false} DecimalRoundTrip(n: nat)
    ensures DecimalValue(NatToString(n)) == n
  {
    var s := NatToString(n);
    if n >= 10 {
      DecimalRoundTrip(n / 10);
      assert s[..|s| - 1] == NatToString(n / 10);
    }
  }

  /** Different indices are rendered as different texts. */
  lemma NatToStringInjective(a: nat, b: nat)
    requires NatToString(a) == NatToString(b)
    ensures a == b
  {
    DecimalRoundTrip(a);
    DecimalRoundTrip(b);
  }

  predicate OccursAt(s: string, pat: string, k: int) {
    0 <= k && k + |pat| <= |s| && s[k..k + |pat|] == pat
  }

  /** The first position at or after `from` where `pat` occurs in `s`, or -1. */
  function IndexFrom(s: string, pat: string, from: nat): (k: int)
    requires from <= |s|
    ensures k == -1 || (from <= k && OccursAt(s, pat, k))
    ensures forall j :: from <= j && (k == -1 || j < k) ==> !OccursAt(s, pat, j)
    decreases |s| - from
  {
    if from + |pat| > |s| then -1
    else if s[from..from + |pat|] == pat then from
    else if from == |s| then -1
    else IndexFrom(s, pat, from + 1)
  }

  /** `s.indexOf(pat)`: the first position where `pat` occurs, or -1 when it does not occur. */
  function IndexOf(s: string, pat: string): (k: int)
    ensures k == -1 <==> forall j :: !OccursAt(s, pat, j)
    ensures k != -1 ==> OccursAt(s, pat, k) && forall j :: 0 <= j < k ==> !OccursAt(s, pat, j)
  {
    IndexFrom(s, pat, 0)
  }

  /** `s.replace(pat, rep)` with a string pattern and a replacement free of `$`
      patterns: the first occurrence only is replaced; no occurrence leaves `s` as it is. */
  function ReplaceFirst(s: string, pat: string, rep: string): string {
    var k := IndexOf(s, pat);
    if k == -1 then s else s[..k] + rep + s[k + |pat|..]
  }

  /** When the pattern occurs, the replacement swaps its length for the replacement's. */
  lemma ReplaceChangesLength(s: string, pat: string, rep: string)
    requires exists j :: OccursAt(s, pat, j)
    ensures |ReplaceFirst(s, pat, rep)| == |s| - |pat| + |rep|
  {
  }

  /** `items.join(sep)`. */
  function Join(items: seq<string>, sep: string): string {
    if |items| == 0 then ""
    else if |items| == 1 then items[0]
    else Join(items[..|items| - 1], sep) + sep + items[|items| - 1]
  }

  /** The width of `items` laid out each followed by `sep`; the first `k`
      items take `JoinWidth(items[..k], sep)` characters of the joined text. */
  function JoinWidth(items: seq<string>, sep: string): nat {
    if items == [] then 0 else JoinWidth(items[..|items| - 1], sep) + |items[|items| - 1]| + |sep|
  }

  lemma {:induction false} JoinLength(items: seq<string>, sep: string)
    requires |items| >= 1
    ensures |Join(items, sep)| + |sep| == JoinWidth(items, sep)
  {
    if |items| == 1 {
      assert items[..0] == [];
    } else {
      JoinLength(items[..|items| - 1], sep);
    }
  }

  lemma {:induction false} JoinItemAt(items: seq<string>, sep: string, k: nat)
    requires k < |items|
    ensures OccursAt(Join(items, sep), items[k], JoinWidth(items[..k], sep))
  {
    if |items| == 1 {
      assert items[..0] == [];
    } else {
      var init := items[..|items| - 1];
      var j, ji := Join(items, sep), Join(init, sep);
      assert j == ji + sep + items[|items| - 1];
      var o := JoinWidth(items[..k], sep);
      if k < |init| {
        JoinItemAt(init, sep, k);
        assert init[k] == items[k] && init[..k] == items[..k];
        assert j[o..o + |items[k]|] == ji[o..o + |items[k]|];
      } else {
        JoinLength(init, sep);
        assert items[..k] == init;
        assert j[o..o + |items[k]|] == items[k];
      }
    }
  }

  lemma {:induction false} JoinSeparatorAt(items: seq<string>, sep: string, k: nat)
    requires k + 1 < |items|
    ensures OccursAt(Join(items, sep), sep, JoinWidth(items[..k], sep) + |items[k]|)
  {
    var init := items[..|items| - 1];
    var j, ji := Join(items, sep), Join(init, sep);
    assert j == ji + sep + items[|items| - 1];
    var o := JoinWidth(items[..k], sep) + |items[k]|;
    assert init[k] == items[k] && init[..k] == items[..k];
    if k + 1 < |init| {
      JoinSeparatorAt(init, sep, k);
      assert j[o..o + |sep|] == ji[o..o + |sep|];
    } else {
      JoinLength(init, sep);
      assert init[..|init| - 1] == init[..k];
      assert j[o..o + |sep|] == sep;
    }
  }

  /** The joined text lays out every item in order, each at the width of the
      items before it, with `sep` between neighbours and nothing else. */
  lemma JoinLayout(items: seq<string>, sep: string)
    requires |items| >= 1
    ensures |Join(items, sep)| + |sep| == JoinWidth(items, sep)
    ensures forall k :: 0 <= k < |items| ==> OccursAt(Join(items, sep), items[k], JoinWidth(items[..k], sep))
    ensures forall k :: 0 <= k < |items| - 1 ==> OccursAt(Join(items, sep), sep, JoinWidth(items[..k], sep) + |items[k]|)
  {
    JoinLength(items, sep);
    forall k | 0 <= k < |items| ensures OccursAt(Join(items, sep), items[k], JoinWidth(items[..k], sep)) {
      JoinItemAt(items, sep, k);
    }
    forall k | 0 <= k < |items| - 1 ensures OccursAt(Join(items, sep), sep, JoinWidth(items[..k], sep) + |items[k]|) {
      JoinSeparatorAt(items, sep, k);
    }
  }

  /** An occurrence keeps its place, shifted by the prefix, once text is put around it. */
  lemma OccursInContext(pre: string, s: string, post: string, pat: string, o: int)
    requires OccursAt(s, pat, o)
    ensures OccursAt(pre + s + post, pat, |pre| + o)
  {
    assert (pre + s + post)[|pre| + o..|pre| + o + |pat|] == s[o..o + |pat|];
  }

  /** Inside `pre + items.join(sep) + post`, item `k` sits after `pre` at the
      width of the items before it, followed by `sep` unless it is the last. */
  lemma JoinItemInContext(pre: string, items: seq<string>, sep: string, post: string, k: nat)
    requires k < |items|
    ensures OccursAt(pre + Join(items, sep) + post, items[k], |pre| + JoinWidth(items[..k], sep))
    ensures k + 1 < |items| ==>
      OccursAt(pre + Join(items, sep) + post, sep, |pre| + JoinWidth(items[..k], sep) + |items[k]|)
  {
    JoinItemAt(items, sep, k);
    OccursInContext(pre, Join(items, sep), post, items[k], JoinWidth(items[..k], sep));
    if k + 1 < |items| {
      JoinSeparatorAt(items, sep, k);
      OccursInContext(pre, Join(items, sep), post, sep, JoinWidth(items[..k], sep) + |items[k]|);
    }
  }
}
