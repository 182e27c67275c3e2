/** Little-endian integers in byte buffers (src/format/mod.rs). */
module Bytes {
  import opened Wrappers

  type byte = x: int | 0 <= x < 256
  type u32 = x: int | 0 <= x < 0x1_0000_0000
  type u64 = x: int | 0 <= x < 0x1_0000_0000_0000_0000

  datatype FormatError = Malformed(reason: string) | Zlib

  /** What comes out of a zlib stream, and whether it ends as it should. */
  datatype Stream = Stream(bytes: seq<byte>, whole: bool)

  const BLOCK_SIZE: nat := 0x8000
  const U16_LIMIT: nat := 0x1_0000
  const U32_LIMIT: nat := 0x1_0000_0000
  const U64_LIMIT: nat := 0x1_0000_0000_0000_0000

  function Pow256(n: nat): (p: nat)
    ensures p >= 1
  {
    if n == 0 then 1 else 256 * Pow256(n - 1)
  }

  lemma Widths()
    ensures Pow256(2) == U16_LIMIT && Pow256(4) == U32_LIMIT && Pow256(8) == U64_LIMIT
  {
    assert Pow256(4) == 256 * Pow256(3) && Pow256(3) == 256 * Pow256(2);
    assert Pow256(6) == 256 * 256 * Pow256(4);
  }

  function FromLe(b: seq<byte>): (v: nat)
    ensures v < Pow256(|b|)
  {
    if b == [] then 0 else b[0] + 256 * FromLe(b[1..])
  }

  function ToLe(v: nat, width: nat): (b: seq<byte>)
    ensures |b| == width
  {
    if width == 0 then [] else [v % 256] + ToLe(v / 256, width - 1)
  }

  lemma {:induction false} FromToLe(v: nat, width: nat)
    requires v < Pow256(width)
    ensures FromLe(ToLe(v, width)) == v
  {
    if width > 0 {
      assert ToLe(v, width)[1..] == ToLe(v / 256, width - 1);
      FromToLe(v / 256, width - 1);
    }
  }

  lemma {:induction false} ToFromLe(b: seq<byte>)
    ensures ToLe(FromLe(b), |b|) == b
  {
    if b != [] {
      var rest := FromLe(b[1..]);
      ToFromLe(b[1..]);
      LowByte(b[0], rest);
      assert ToLe(FromLe(b), |b|) == [b[0]] + ToLe(rest, |b| - 1);
    }
  }

  lemma LowByte(low: byte, rest: nat)
    ensures (low + 256 * rest) % 256 == low && (low + 256 * rest) / 256 == rest
  {
  }

  // ---- reading at an offset ----------------------------------------------

  function UintAt(b: seq<byte>, off: nat, width: nat): (r: Result<nat, FormatError>)
    ensures r.Ok? ==> off + width <= |b| && r.value < Pow256(width)
  {
    if off + width <= |b| then Ok(FromLe(b[off..off + width])) else Err(Malformed("truncated integer"))
  }

  function U16At(b: seq<byte>, off: nat): (r: Result<nat, FormatError>)
    ensures r.Ok? ==> r.value < U16_LIMIT && off + 2 <= |b|
  {
    Widths();
    UintAt(b, off, 2)
  }

  function U32At(b: seq<byte>, off: nat): (r: Result<nat, FormatError>)
    ensures r.Ok? ==> r.value < U32_LIMIT && off + 4 <= |b|
  {
    Widths();
    UintAt(b, off, 4)
  }

  function U64At(b: seq<byte>, off: nat): (r: Result<nat, FormatError>)
    ensures r.Ok? ==> r.value < U64_LIMIT && off + 8 <= |b|
  {
    Widths();
    UintAt(b, off, 8)
  }

  /** `part` is what the buffer holds at `off`. */
  ghost predicate Occurs(b: seq<byte>, off: nat, part: seq<byte>) {
    off + |part| <= |b| && b[off..off + |part|] == part
  }

  lemma OccursSplit(b: seq<byte>, off: nat, p: seq<byte>, q: seq<byte>)
    ensures Occurs(b, off, p + q) <==> Occurs(b, off, p) && Occurs(b, off + |p|, q)
  {
    if off + |p| + |q| <= |b| {
      var whole := b[off..off + |p| + |q|];
      assert whole == b[off..off + |p|] + b[off + |p|..off + |p| + |q|];
      assert whole[..|p|] == b[off..off + |p|] && whole[|p|..] == b[off + |p|..off + |p| + |q|];
      assert (p + q)[..|p|] == p && (p + q)[|p|..] == q;
    }
  }

  /** An integer of the given width is read exactly where its encoding sits. */
  lemma UintOccurs(b: seq<byte>, off: nat, v: nat, width: nat)
    ensures UintAt(b, off, width) == Ok(v) <==> v < Pow256(width) && Occurs(b, off, ToLe(v, width))
  {
    hide ToLe, FromLe, Pow256;
    if off + width <= |b| {
      var here := b[off..off + width];
      ToFromLe(here);
      if FromLe(here) != v && v < Pow256(width) {
        FromToLe(v, width);
      }
    }
  }

  lemma U32Occurs(b: seq<byte>, off: nat, v: nat)
    ensures U32At(b, off) == Ok(v) <==> v < U32_LIMIT && Occurs(b, off, ToLe(v, 4))
  {
    Widths();
    UintOccurs(b, off, v, 4);
  }

  lemma U64Occurs(b: seq<byte>, off: nat, v: nat)
    ensures U64At(b, off) == Ok(v) <==> v < U64_LIMIT && Occurs(b, off, ToLe(v, 8))
  {
    Widths();
    UintOccurs(b, off, v, 8);
  }

  lemma U16Occurs(b: seq<byte>, off: nat, v: nat)
    ensures U16At(b, off) == Ok(v) <==> v < U16_LIMIT && Occurs(b, off, ToLe(v, 2))
  {
    Widths();
    UintOccurs(b, off, v, 2);
  }

  /** Consecutive 32-bit words. */
  function Words(ws: seq<nat>): (e: seq<byte>)
    ensures |e| == 4 * |ws|
  {
    if ws == [] then [] else Words(ws[..|ws| - 1]) + ToLe(ws[|ws| - 1], 4)
  }

  lemma WordsSnoc(ws: seq<nat>, w: nat)
    ensures Words([]) == [] && Words(ws + [w]) == Words(ws) + ToLe(w, 4)
  {
    hide ToLe;
    assert (ws + [w])[..|ws|] == ws;
  }

  lemma {:induction false} WordsOccur(t: seq<byte>, base: nat, words: seq<nat>, n: nat)
    requires n <= |words| && base <= |t|
    ensures (Occurs(t, base, Words(words[..n])) && forall i :: 0 <= i < n ==> words[i] < U32_LIMIT)
       <==> forall i :: 0 <= i < n ==> U32At(t, base + 4 * i) == Ok(words[i])
  {
    hide U32At, ToLe, Words;
    if n == 0 {
      WordsSnoc([], 0);
    } else {
      var before, w := words[..n - 1], words[n - 1];
      WordsOccur(t, base, words, n - 1);
      U32Occurs(t, base + 4 * (n - 1), w);
      assert words[..n] == before + [w];
      WordsSnoc(before, w);
      OccursSplit(t, base, Words(before), ToLe(w, 4));
    }
  }
}
