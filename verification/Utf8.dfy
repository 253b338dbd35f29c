/** UTF-8 as Go implements it: encoding a rune, the number of bytes the decoder
    consumes at the front of any byte string, and the byte-level search the
    chunker does. */
module Utf8 {
  import opened Text

  type Byte = b: int | 0 <= b < 256

  function Encode(c: char): (bs: seq<Byte>)
    ensures 1 <= |bs| <= 4
    ensures bs[0] < 128 <==> c as int < 128
    ensures c as int < 128 ==> bs == [c as int]
    ensures c as int >= 128 ==> forall i :: 0 <= i < |bs| ==> bs[i] >= 128
  {
    var n := c as int;
    if n < 0x80 then [n]
    else if n < 0x800 then [0xC0 + n / 64, 0x80 + n % 64]
    else if n < 0x10000 then [0xE0 + n / 4096, 0x80 + n / 64 % 64, 0x80 + n % 64]
    else [0xF0 + n / 262144, 0x80 + n / 4096 % 64, 0x80 + n / 64 % 64, 0x80 + n % 64]
  }

  /** string(runes). */
  function EncodeAll(rs: string): seq<Byte> {
    if rs == [] then [] else Encode(rs[0]) + EncodeAll(rs[1..])
  }

  predicate Between(bs: seq<Byte>, i: nat, lo: int, hi: int) {
    i < |bs| && lo <= bs[i] <= hi
  }

  /** How many bytes utf8.DecodeRune consumes: the length of a well-formed
      sequence (table 3-7 of the Unicode Standard), or one byte of rubbish. */
  function DecodeLen(bs: seq<Byte>): (n: nat)
    requires bs != []
    ensures 1 <= n <= |bs|
  {
    var b := bs[0];
    if 0xC2 <= b <= 0xDF && Between(bs, 1, 0x80, 0xBF) then 2
    else if 0xE0 <= b <= 0xEF
         && Between(bs, 1, if b == 0xE0 then 0xA0 else 0x80, if b == 0xED then 0x9F else 0xBF)
         && Between(bs, 2, 0x80, 0xBF) then 3
    else if 0xF0 <= b <= 0xF4
         && Between(bs, 1, if b == 0xF0 then 0x90 else 0x80, if b == 0xF4 then 0x8F else 0xBF)
         && Between(bs, 2, 0x80, 0xBF) && Between(bs, 3, 0x80, 0xBF) then 4
    else 1
  }

  /** len([]rune(s)) for any byte string s. */
  function RuneCount(bs: seq<Byte>): nat {
    if bs == [] then 0 else 1 + RuneCount(bs[DecodeLen(bs)..])
  }

  predicate Ascii(s: string) {
    forall i :: 0 <= i < |s| ==> s[i] as int < 128
  }

  lemma DecodeEncode(c: char, rest: seq<Byte>)
    ensures DecodeLen(Encode(c) + rest) == |Encode(c)|
  {
    var n := c as int;
    var bs := Encode(c);
    assert forall i :: 0 <= i < |bs| ==> (bs + rest)[i] == bs[i];
    if 0x800 <= n < 0x10000 {
      if bs[0] == 0xE0 { assert bs[1] >= 0xA0; }
      if bs[0] == 0xED { assert n < 0xD800 || n >= 0xE000; assert bs[1] <= 0x9F; }
    } else if 0x10000 <= n {
      if bs[0] == 0xF0 { assert bs[1] >= 0x90; }
      if bs[0] == 0xF4 { assert bs[1] <= 0x8F; }
    }
  }

  /** Decoding what was encoded gives back as many runes. */
  lemma {:induction false} CountEncoded(rs: string)
    ensures RuneCount(EncodeAll(rs)) == |rs|
  {
    if rs != [] {
      DecodeEncode(rs[0], EncodeAll(rs[1..]));
      assert EncodeAll(rs)[|Encode(rs[0])|..] == EncodeAll(rs[1..]);
      CountEncoded(rs[1..]);
    }
  }

  lemma {:induction false} EncodeConcat(a: string, b: string)
    ensures EncodeAll(a + b) == EncodeAll(a) + EncodeAll(b)
  {
    if a == [] {
      assert a + b == b;
    } else {
      assert (a + b)[1..] == a[1..] + b;
      EncodeConcat(a[1..], b);
    }
  }

  /** The byte offset of rune j. */
  function Offset(rs: string, j: nat): nat
    requires j <= |rs|
  {
    |EncodeAll(rs[..j])|
  }

  lemma OffsetStep(rs: string, j: nat)
    requires j < |rs|
    ensures Offset(rs, j + 1) == Offset(rs, j) + |Encode(rs[j])|
  {
    assert rs[..j + 1] == rs[..j] + [rs[j]];
    EncodeConcat(rs[..j], [rs[j]]);
    assert EncodeAll([rs[j]]) == Encode(rs[j]);
  }

  lemma {:induction false} OffsetMonotone(rs: string, i: nat, j: nat)
    requires i <= j <= |rs|
    ensures Offset(rs, i) + (j - i) <= Offset(rs, j)
    decreases j
  {
    if i < j {
      OffsetMonotone(rs, i, j - 1);
      OffsetStep(rs, j - 1);
    }
  }

  /** Self-synchronisation (section 3 of RFC 3629): a byte below 128 inside an
      encoded text is a whole rune, never part of one. */
  lemma {:induction false} AsciiByteIsRune(rs: string, p: nat) returns (j: nat)
    requires p < |EncodeAll(rs)| && EncodeAll(rs)[p] < 128
    ensures j < |rs| && Offset(rs, j) == p && rs[j] as int == EncodeAll(rs)[p]
  {
    var n := |Encode(rs[0])|;
    if p < n {
      j := 0;
    } else {
      var k := AsciiByteIsRune(rs[1..], p - n);
      j := k + 1;
      assert rs[..j][1..] == rs[1..][..k];
    }
  }

  lemma {:induction false} EncodeAscii(s: string)
    requires Ascii(s)
    ensures |EncodeAll(s)| == |s|
    ensures forall i :: 0 <= i < |s| ==> EncodeAll(s)[i] == s[i] as int
  {
    if s != [] {
      EncodeAscii(s[1..]);
    }
  }

  /** An occurrence over runes is an occurrence over bytes. */
  lemma OccurrenceEncodes(rs: string, sep: string, j: nat)
    requires Ascii(sep) && OccursAt(rs, sep, j)
    ensures OccursAt(EncodeAll(rs), EncodeAll(sep), Offset(rs, j))
  {
    var a, c := rs[..j], rs[j + |sep|..];
    assert rs == a + (sep + c);
    EncodeConcat(a, sep + c);
    EncodeConcat(sep, c);
  }

  lemma OffsetInjective(rs: string, j: nat, k: nat)
    requires j <= |rs| && k <= |rs| && Offset(rs, j) == Offset(rs, k)
    ensures j == k
  {
    if j < k { OffsetMonotone(rs, j, k); } else { OffsetMonotone(rs, k, j); }
  }

  /** ASCII bytes in a row are as many runes in a row. */
  lemma {:induction false} AsciiRun(rs: string, sep: string, p: nat, n: nat) returns (j: nat)
    requires Ascii(sep) && 0 < n <= |sep| && p + n <= |EncodeAll(rs)|
    requires forall i :: 0 <= i < n ==> EncodeAll(rs)[p + i] == sep[i] as int
    ensures j + n <= |rs| && Offset(rs, j) == p && Offset(rs, j + n) == p + n
    ensures forall i :: 0 <= i < n ==> rs[j + i] == sep[i]
  {
    assert EncodeAll(rs)[p + (n - 1)] == sep[n - 1] as int;
    var k := AsciiByteIsRune(rs, p + (n - 1));
    OffsetStep(rs, k);
    if n == 1 {
      j := k;
    } else {
      j := AsciiRun(rs, sep, p, n - 1);
      OffsetInjective(rs, j + n - 1, k);
    }
  }

  /** An occurrence over bytes is an occurrence over runes. */
  lemma OccurrenceDecodes(rs: string, sep: string, p: nat) returns (j: nat)
    requires Ascii(sep) && sep != [] && OccursAt(EncodeAll(rs), EncodeAll(sep), p)
    ensures j <= |rs| && Offset(rs, j) == p && OccursAt(rs, sep, j)
  {
    EncodeAscii(sep);
    forall i | 0 <= i < |sep| ensures EncodeAll(rs)[p + i] == sep[i] as int {
      assert EncodeAll(rs)[p + i] == EncodeAll(rs)[p..p + |sep|][i];
    }
    j := AsciiRun(rs, sep, p, |sep|);
    assert rs[j..j + |sep|] == sep;
  }

  /** Counting the runes before byte offset Offset(rs, j) gives j. */
  lemma CountToOffset(rs: string, j: nat)
    requires j <= |rs|
    ensures Offset(rs, j) <= |EncodeAll(rs)|
    ensures RuneCount(EncodeAll(rs)[..Offset(rs, j)]) == j
  {
    assert rs == rs[..j] + rs[j..];
    EncodeConcat(rs[..j], rs[j..]);
    assert EncodeAll(rs)[..Offset(rs, j)] == EncodeAll(rs[..j]);
    CountEncoded(rs[..j]);
  }

  /** The last occurrence over bytes, counted in runes, is the last occurrence
      over runes. */
  lemma LastIndexInRunes(rs: string, sep: string)
    requires Ascii(sep) && sep != []
    ensures var bytes := EncodeAll(rs);
            var i := LastIndexFrom(bytes, EncodeAll(sep), |bytes|);
            var j := LastIndexFrom(rs, sep, |rs|);
            (i < 0 <==> j < 0) && (i >= 0 ==> RuneCount(bytes[..i]) == j)
  {
    var bytes := EncodeAll(rs);
    var i := LastIndexFrom(bytes, EncodeAll(sep), |bytes|);
    var j := LastIndexFrom(rs, sep, |rs|);
    if j >= 0 {
      OccurrenceEncodes(rs, sep, j);
      CountToOffset(rs, j);
      assert Offset(rs, j) <= i;
    }
    if i >= 0 {
      var k := OccurrenceDecodes(rs, sep, i);
      CountToOffset(rs, k);
      if k < j { OffsetMonotone(rs, k, j); }
    }
  }
}
