/** Left padding of strings (src/lib/utils/strings.ts). */
module Strings {

  /** `p` written `n` times in a row: JavaScript's `p.repeat(n)`. */
  function Repeat(p: string, n: nat): (r: string)
    ensures |r| == n * |p|
    ensures |p| == 1 ==> forall k :: 0 <= k < |r| ==> r[k] == p[0]
  {
    if n == 0 then [] else p + Repeat(p, n - 1)
  }

  /** Repeating grows at either end: one more copy is the old result followed by `p`. */
  lemma {:induction false} RepeatSnoc(p: string, n: nat)
    ensures Repeat(p, n + 1) == Repeat(p, n) + p
  {
    if n > 0 {
      RepeatSnoc(p, n - 1);
    }
  }

  /** Block `i` of `Repeat(p, n)`, the characters from `i·|p|` up to `(i+1)·|p|`, is `p` itself. */
  lemma {:induction false} RepeatBlock(p: string, n: nat, i: nat)
    requires i < n
    ensures (i + 1) * |p| <= |Repeat(p, n)|
    ensures Repeat(p, n)[i * |p| .. (i + 1) * |p|] == p
  {
    var k := |p|;
    var r := Repeat(p, n);
    assert r == p + Repeat(p, n - 1);
    if i > 0 {
      RepeatBlock(p, n - 1, i - 1);
      assert i * k == k + (i - 1) * k;
      assert (i + 1) * k == k + i * k;
      assert r[i * k .. (i + 1) * k] == Repeat(p, n - 1)[(i - 1) * k .. i * k];
    }
  }

  /**
   * `lpad(str, len, pad)`: `str` unchanged when it is already `len`
   * characters or longer, otherwise `pad` repeated `len - |str|` times and
   * then `str`. The default pad of the source is a single space.
   */
  function Lpad(str: string, len: int, pad: string := " "): (r: string)
    ensures |str| >= len ==> r == str
    ensures |str| < len ==> |r| == |str| + (len - |str|) * |pad|
    ensures r[|r| - |str|..] == str
    ensures |pad| == 1 ==> forall k :: 0 <= k < |r| - |str| ==> r[k] == pad[0]
    ensures |pad| == 1 ==> |r| == if |str| >= len then |str| else len
  {
    if |str| >= len then str else Repeat(pad, len - |str|) + str
  }

  /** The padding `Lpad` adds is `pad` written out whole, block after block, whatever the pad's length. */
  lemma LpadBlock(str: string, len: int, pad: string, i: nat)
    requires |str| < len && i < len - |str|
    ensures (i + 1) * |pad| <= |Lpad(str, len, pad)| - |str|
    ensures Lpad(str, len, pad)[i * |pad| .. (i + 1) * |pad|] == pad
  {
    var prefix := Repeat(pad, len - |str|);
    RepeatBlock(pad, len - |str|, i);
    assert Lpad(str, len, pad) == prefix + str;
    assert (prefix + str)[i * |pad| .. (i + 1) * |pad|] == prefix[i * |pad| .. (i + 1) * |pad|];
  }

  /** With a non-empty pad the result is never shorter than `len`. */
  lemma LpadReachesLength(str: string, len: int, pad: string)
    requires |pad| > 0
    ensures |Lpad(str, len, pad)| >= len
    ensures |Lpad(str, len, pad)| >= |str|
  {
    if |str| < len {
      var n := len - |str|;
      assert n * |pad| >= n by { AtLeastOnce(n, |pad|); }
    }
  }

  lemma AtLeastOnce(n: nat, m: nat)
    requires m >= 1
    ensures n * m >= n
  {
    assert n * m == n + n * (m - 1);
  }

  /** Padding an already padded string changes nothing, for a non-empty pad. */
  lemma LpadIdempotent(str: string, len: int, pad: string)
    requires |pad| > 0
    ensures Lpad(Lpad(str, len, pad), len, pad) == Lpad(str, len, pad)
  {
    LpadReachesLength(str, len, pad);
  }

  /** An empty pad leaves every string as it is. */
  lemma LpadEmptyPad(str: string, len: int)
    ensures Lpad(str, len, "") == str
  {
    if |str| < len {
      var r := Lpad(str, len, "");
      assert |r| == |str|;
      assert r == r[|r| - |str|..];
    }
  }
}
