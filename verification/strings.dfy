/** Small sequence and string helpers shared by the tokenizer, the pipeline
    splitter and the formatting helpers of `scripts/utils`. Strings are
    sequences of Unicode scalar values, as Rust's `char`. */
module Strings {

  /** `n` copies of `c`: Rust's `c.to_string().repeat(n)`. */
  function Repeat(c: char, n: nat): (r: string)
    ensures |r| == n
    ensures forall i :: 0 <= i < n ==> r[i] == c
  {
    if n == 0 then [] else [c] + Repeat(c, n - 1)
  }

  /** Number of occurrences of `c` in `s`. */
  function Count(s: string, c: char): nat
  {
    if s == [] then 0 else Count(s[..|s| - 1], c) + (if s[|s| - 1] == c then 1 else 0)
  }

  lemma {:induction false} CountAppend(a: string, b: string, c: char)
    ensures Count(a + b, c) == Count(a, c) + Count(b, c)
    decreases |b|
  {
    if b != [] {
      CountAppend(a, b[..|b| - 1], c);
      assert (a + b)[..|a + b| - 1] == a + b[..|b| - 1];
    } else {
      assert a + b == a;
    }
  }

  /** `Repeat(c, n)` holds `n` copies of `c` and nothing else. */
  lemma {:induction false} CountRepeat(c: char, x: char, n: nat)
    ensures Count(Repeat(c, n), x) == if x == c then n else 0
  {
    if n > 0 {
      CountRepeat(c, x, n - 1);
      CountAppend([c], Repeat(c, n - 1), x);
      assert [c][..0] == [];
    }
  }

  /** All strings of `ws` glued together in order (Rust's `concat`). */
  function Concat(ws: seq<string>): string
  {
    if ws == [] then [] else Concat(ws[..|ws| - 1]) + ws[|ws| - 1]
  }

  lemma ConcatSnoc(ws: seq<string>, w: string)
    ensures Concat(ws + [w]) == Concat(ws) + w
  {
    assert (ws + [w])[..|ws|] == ws;
  }

  /** Number of bytes Rust's UTF-8 encoding uses for `c`. */
  function Utf8Width(c: char): (n: nat)
    ensures 1 <= n <= 4
    ensures n == 1 <==> (c as int) < 0x80
  {
    if (c as int) < 0x80 then 1
    else if (c as int) < 0x800 then 2
    else if (c as int) < 0x1_0000 then 3
    else 4
  }

  /** Rust's `str::len`: the length of the UTF-8 encoding in BYTES, not the
      number of characters. */
  function ByteLength(s: string): (n: nat)
    ensures |s| <= n <= 4 * |s|
  {
    if s == [] then 0 else ByteLength(s[..|s| - 1]) + Utf8Width(s[|s| - 1])
  }

  /** The byte length is the character count exactly for ASCII text. */
  lemma {:induction false} AsciiByteLength(s: string)
    ensures ByteLength(s) == |s| <==> forall i :: 0 <= i < |s| ==> (s[i] as int) < 0x80
  {
    if s != [] {
      var front := s[..|s| - 1];
      AsciiByteLength(front);
      assert forall i :: 0 <= i < |front| ==> front[i] == s[i];
    }
  }
}
