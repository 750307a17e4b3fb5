/**
 The run-count index of a sparse vector: counts packed into one, three, five or
 nine signed characters, each entry announcing its own size.
 */
module CompWord {
  import opened Arithmetic

  newtype SChar = x: int | -128 <= x < 128 witness 0

  /** A byte as a signed character, and back. */
  function ToChar(b: int): (c: SChar)
    requires 0 <= b < 256
    ensures ToByte(c) == b
  {
    if b < 128 then b as SChar else (b - 256) as SChar
  }

  function ToByte(c: SChar): (b: int)
    ensures 0 <= b < 256
  {
    if c < 0 then c as int + 256 else c as int
  }

  const P16 := 0x1_0000
  const P32 := 0x1_0000_0000
  const P64 := 0x1_0000_0000_0000_0000

  /** Two's complement reading of w bits, given m = 2^w. */
  function Signed(v: int, m: int): (s: int) {
    if 2 * v < m then v else v - m
  }

  /** Bytes of a number, low one first. */
  function Word(e: seq<SChar>): (v: int)
    ensures v >= 0
  {
    if e == [] then 0 else ToByte(e[0]) + 256 * Word(e[1..])
  }

  function Bytes(n: nat, len: nat): (e: seq<SChar>)
    ensures |e| == len
    decreases len
  {
    if len == 0 then [] else [ToChar(n % 256)] + Bytes(n / 256, len - 1)
  }

  function Pow256(len: nat): (p: nat)
    ensures p >= 1
  {
    if len == 0 then 1 else 256 * Pow256(len - 1)
  }

  lemma {:induction false} WordOfBytes(n: nat, len: nat)
    requires n < Pow256(len)
    ensures Word(Bytes(n, len)) == n
    decreases len
  {
    if len > 0 {
      assert Bytes(n, len)[1..] == Bytes(n / 256, len - 1);
      WordOfBytes(n / 256, len - 1);
    }
  }

  /** int8compstoragesize of a non-NULL entry. */
  function StorageSize(head: SChar): (s: int)
    ensures head < 0 ==> s == 1
  {
    if head < 0 then 1 else 1 + head as int
  }

  predicate GoodSize(s: int) {
    s == 1 || s == 3 || s == 5 || s == 9
  }

  /** An entry can be read at the start of e. */
  predicate Readable(e: seq<SChar>) {
    |e| >= 1 && GoodSize(StorageSize(e[0])) && StorageSize(e[0]) <= |e|
  }

  /** compword_to_int8 of a non-NULL entry. */
  function Decode(e: seq<SChar>): (n: int)
    requires Readable(e)
  {
    var size := StorageSize(e[0]);
    if size == 1 then 0 - e[0] as int
    else if size == 3 then Signed(Word(e[1..3]), P16)
    else if size == 5 then Signed(Word(e[1..5]), P32)
    else Signed(Word(e[1..9]), P64)
  }

  /** The entry for a count: the first of the four forms that holds it. */
  function Encode(num: nat): (e: seq<SChar>)
    requires num < P64 / 2
    ensures Readable(e) && StorageSize(e[0]) == |e|
  {
    if num < 128 then [(0 - num) as SChar]
    else if num < P16 / 2 then [2] + Bytes(num, 2)
    else if num < P32 / 2 then [4] + Bytes(num, 4)
    else [8] + Bytes(num, 8)
  }

  lemma Pow256Values()
    ensures Pow256(0) == 1 && Pow256(1) == 0x100 && Pow256(2) == P16 && Pow256(3) == 0x100_0000 && Pow256(4) == P32
    ensures Pow256(5) == 0x100_0000_0000 && Pow256(6) == 0x1_0000_0000_0000 && Pow256(7) == 0x100_0000_0000_0000
    ensures Pow256(8) == P64
  {
    assert Pow256(3) == 256 * P16;
    assert Pow256(5) == 256 * P32;
    assert Pow256(7) == 256 * Pow256(6);
  }

  /** Every count is read back, whatever follows its entry. */
  lemma RoundTrip(num: nat, rest: seq<SChar>)
    requires num < P64 / 2
    ensures Readable(Encode(num) + rest) && Decode(Encode(num) + rest) == num
    ensures StorageSize((Encode(num) + rest)[0]) == |Encode(num)|
  {
    hide Word, Bytes, Pow256;
    Pow256Values();
    var e := Encode(num);
    var len := |e| - 1;
    assert (e + rest)[1..1 + len] == e[1..];
    if num >= 128 {
      assert e[1..] == Bytes(num, len);
      WordOfBytes(num, len);
    }
  }

  /** Byte k of a number, taken out by mask and shift. */
  function ByteAt(num: nat, k: nat): (c: SChar) {
    ToChar(num / Pow256(k) % 256)
  }

  /** int8_to_compword: fill the entry buffer, choosing the size last. */
  method Int8ToCompword(num: nat, entry: array<SChar>)
    requires num < P64 / 2 && entry.Length == 9
    modifies entry
    ensures StorageSize(entry[0]) == |Encode(num)| && entry[..|Encode(num)|] == Encode(num)
  {
    hide Bytes, ByteAt;
    if num < 128 {
      entry[0] := (0 - num) as SChar;
      return;
    }
    entry[1], entry[2] := ByteAt(num, 0), ByteAt(num, 1);
    if num < 32768 {
      entry[0] := 2;
      EntryIs(num, entry[..3]);
      return;
    }
    entry[3], entry[4] := ByteAt(num, 2), ByteAt(num, 3);
    if num < 2147483648 {
      entry[0] := 4;
      EntryIs(num, entry[..5]);
      return;
    }
    entry[5], entry[6], entry[7], entry[8] := ByteAt(num, 4), ByteAt(num, 5), ByteAt(num, 6), ByteAt(num, 7);
    entry[0] := 8;
    EntryIs(num, entry[..9]);
  }

  lemma EntryIs(num: nat, e: seq<SChar>)
    requires |e| >= 1 && forall k :: 1 <= k < |e| ==> e[k] == ByteAt(num, k - 1)
    ensures e == [e[0]] + Bytes(num, |e| - 1)
  {
    hide Bytes, ByteAt;
    BytesOf(num, e[1..]);
  }

  ghost predicate MaskedBytes(num: nat, e: seq<SChar>) {
    forall k :: 0 <= k < |e| ==> e[k] == ByteAt(num, k)
  }

  lemma {:induction false} BytesOf(num: nat, e: seq<SChar>)
    requires MaskedBytes(num, e)
    ensures e == Bytes(num, |e|)
  {
    if e != [] {
      forall k | 0 <= k < |e| - 1 ensures e[1..][k] == ByteAt(num / 256, k) {
        assert e[1..][k] == e[k + 1];
        DivTwice(num, Pow256(k));
      }
      BytesOf(num / 256, e[1..]);
    }
  }

  lemma DivTwice(n: nat, p: nat)
    requires p >= 1
    ensures n / 256 / p == n / (256 * p)
  {
    DivDiv(n, 256, p);
  }

  /** How many bytes an entry takes, by the count it holds. */
  lemma EncodeSize(num: nat)
    requires num < P64 / 2
    ensures |Encode(num)| == 1 <==> num < 0x80
    ensures |Encode(num)| == 3 <==> 0x80 <= num < 0x8000
    ensures |Encode(num)| == 5 <==> 0x8000 <= num < 0x8000_0000
    ensures |Encode(num)| == 9 <==> 0x8000_0000 <= num
  {
    hide Bytes;
  }

  /** What the bytes are: a negative one for a small count, else the width and the bytes of the count, low one first. */
  lemma EncodeBytes(num: nat, k: nat)
    requires num < P64 / 2 && 1 + k < |Encode(num)|
    ensures Encode(num)[0] as int == |Encode(num)| - 1 && ToByte(Encode(num)[1 + k]) == num / Pow256(k) % 256
  {
    hide Pow256;
    BytesAt(num, |Encode(num)| - 1, k);
  }

  lemma SmallEntry(num: nat)
    requires num < 0x80
    ensures |Encode(num)| == 1 && Encode(num)[0] as int == 0 - num
  {}

  lemma {:induction false} BytesAt(n: nat, len: nat, k: nat)
    requires k < len
    ensures ToByte(Bytes(n, len)[k]) == n / Pow256(k) % 256
    decreases len
  {
    if k > 0 {
      BytesAt(n / 256, len - 1, k - 1);
      DivDiv(n, 256, Pow256(k - 1));
    }
  }
}
