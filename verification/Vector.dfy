/** How vectors are stored (internal/store/sqlitestore/searchindex.go): each float32, as
    its bit pattern, in four bytes, least significant first. */
module Vector {

  type Byte = b: int | 0 <= b < 256
  type Bits = w: int | 0 <= w < 0x1_0000_0000

  function Little(w: Bits): (bs: seq<Byte>)
    ensures |bs| == 4
  {
    [w % 256, w / 256 % 256, w / 256 / 256 % 256, w / 256 / 256 / 256]
  }

  function Horner(a: int, b: int, c: int, d: int): int {
    a + 256 * (b + 256 * (c + 256 * d))
  }

  function Word(bs: seq<Byte>): Bits
    requires |bs| == 4
  {
    Horner(bs[0], bs[1], bs[2], bs[3])
  }

  function Encoded(v: seq<Bits>): (bs: seq<Byte>)
    ensures |bs| == 4 * |v|
  {
    if v == [] then [] else Encoded(v[..|v| - 1]) + Little(v[|v| - 1])
  }

  /** Whole words only: up to three bytes at the end are ignored. */
  function Decoded(bs: seq<Byte>): (v: seq<Bits>)
    ensures |v| == |bs| / 4
    ensures forall i :: 0 <= i < |v| ==> v[i] == Word(bs[4 * i..4 * i + 4])
  {
    seq(|bs| / 4, i requires 0 <= i < |bs| / 4 => Word(bs[4 * i..4 * i + 4]))
  }

  method EncodeVector(v: seq<Bits>) returns (out: array<Byte>)
    ensures fresh(out) && out[..] == Encoded(v)
  {
    hide Little;
    out := new Byte[4 * |v|];
    for i := 0 to |v|
      invariant out[..4 * i] == Encoded(v[..i])
    {
      assert v[..i + 1][..i] == v[..i];
      PutUint32(out, 4 * i, v[i]);
      assert out[..4 * (i + 1)] == out[..4 * i] + out[4 * i..4 * i + 4];
    }
    assert v[..|v|] == v && out[..4 * |v|] == out[..];
  }

  method PutUint32(out: array<Byte>, at: nat, w: Bits)
    requires at + 4 <= out.Length
    modifies out
    ensures out[at..at + 4] == Little(w) && out[..at] == old(out[..at]) && out[at + 4..] == old(out[at + 4..])
  {
    out[at], out[at + 1], out[at + 2], out[at + 3] := w % 256, w / 256 % 256, w / 256 / 256 % 256, w / 256 / 256 / 256;
  }

  method DecodeVector(bs: seq<Byte>) returns (out: array<Bits>)
    ensures fresh(out) && out[..] == Decoded(bs)
  {
    hide Word;
    out := new Bits[|bs| / 4];
    for i := 0 to out.Length
      invariant out[..i] == Decoded(bs)[..i]
    {
      out[i] := Word(bs[4 * i..4 * i + 4]);
    }
  }

  lemma WordOfLittle(w: Bits)
    ensures Word(Little(w)) == w
  {
  }

  lemma TakeApart(lo: int, hi: int)
    requires 0 <= lo < 256
    ensures (lo + 256 * hi) % 256 == lo && (lo + 256 * hi) / 256 == hi
  {
  }

  lemma LittleOfWord(bs: seq<Byte>)
    requires |bs| == 4
    ensures Little(Word(bs)) == bs
  {
    var d: int, e: int, f: int := bs[1], bs[2], bs[3];
    var c: int := e + 256 * f;
    var b: int := d + 256 * c;
    TakeApart(bs[0], b);
    TakeApart(bs[1], c);
    TakeApart(bs[2], bs[3]);
  }

  lemma InFront(a: seq<Byte>, b: seq<Byte>, from: nat, to: nat)
    requires from <= to <= |a|
    ensures (a + b)[from..to] == a[from..to]
  {
  }

  lemma {:induction false} EncodedAt(v: seq<Bits>, i: nat)
    requires i < |v|
    ensures Encoded(v)[4 * i..4 * i + 4] == Little(v[i])
    decreases |v|
  {
    hide Little;
    var n := |v| - 1;
    var before, last := Encoded(v[..n]), Little(v[n]);
    assert Encoded(v) == before + last;
    if i < n {
      EncodedAt(v[..n], i);
      InFront(before, last, 4 * i, 4 * i + 4);
      assert v[..n][i] == v[i];
    } else {
      assert (before + last)[|before|..] == last;
    }
  }

  /** A stored vector is read back bit for bit. */
  lemma DecodeEncode(v: seq<Bits>)
    ensures Decoded(Encoded(v)) == v
  {
    hide Little, Word, Encoded;
    forall i | 0 <= i < |v| ensures Decoded(Encoded(v))[i] == v[i] {
      EncodedAt(v, i);
      WordOfLittle(v[i]);
    }
  }

  /** Reading and storing again reproduces the bytes, less an incomplete last word. */
  lemma {:induction false} EncodeDecode(bs: seq<Byte>)
    ensures Encoded(Decoded(bs)) == bs[..|bs| - |bs| % 4]
    decreases |bs|
  {
    hide Little, Word;
    if |bs| >= 4 {
      var n := |bs| / 4 - 1;
      var init := bs[..4 * n];
      EncodeDecode(init);
      assert Decoded(bs)[..n] == Decoded(init) by {
        forall i | 0 <= i < n ensures Decoded(bs)[i] == Decoded(init)[i] {
          assert bs[4 * i..4 * i + 4] == init[4 * i..4 * i + 4];
        }
      }
      LittleOfWord(bs[4 * n..4 * n + 4]);
      assert bs[..4 * n + 4] == init + bs[4 * n..4 * n + 4];
    }
  }

  /** Value i takes bytes 4i to 4i + 3, least significant first. */
  lemma BytesSpell(v: seq<Bits>, i: nat)
    requires i < |v|
    ensures var bs := Encoded(v);
            v[i] == bs[4 * i] + 256 * bs[4 * i + 1] as int + 65536 * bs[4 * i + 2] as int + 16777216 * bs[4 * i + 3] as int
  {
    hide Encoded;
    EncodedAt(v, i);
    var bs := Encoded(v);
    var word := bs[4 * i..4 * i + 4];
    WordOfLittle(v[i]);
    assert word[0] == bs[4 * i] && word[1] == bs[4 * i + 1] && word[2] == bs[4 * i + 2] && word[3] == bs[4 * i + 3];
  }
}
