/**
 The cipher object (iv carried from call to call), bf_encrypt and bf_decrypt in CBC
 mode, and combo_encrypt and combo_decrypt with their padding.
 */
module Combo {
  import opened Octets
  import opened Sequences
  import opened Feistel
  import opened Words
  import opened Cbc

  const BS: nat := 8

  class Blowfish {
    const key: Key
    var iv: Pair

    constructor (key: Key, iv: Pair)
      requires key.Valid()
      ensures this.key == key && this.iv == iv
    {
      this.key, this.iv := key, iv;
    }

    /** blowfish_encrypt_cbc: in place, block by block. */
    method EncryptCbc(blk: array<Octet>)
      requires key.Valid() && blk.Length % 8 == 0
      modifies this, blk
      ensures blk[..] == CipherOf(key, old(iv), old(blk[..])) && iv == ChainOf(key, old(iv), old(blk[..]))
    {
      hide Encrypt, Load, Store, Xor, CipherOf, ChainOf;
      ghost var d := blk[..];
      var n := 0;
      CipherNone(key, iv, d);
      while n < blk.Length
        invariant 0 <= n <= blk.Length && n % 8 == 0
        invariant iv == ChainOf(key, old(iv), d[..n]) && blk[..n] == CipherOf(key, old(iv), d[..n])
        invariant forall i :: n <= i < blk.Length ==> blk[i] == d[i]
      {
        NextBlock(blk.Length, n);
        assert blk[n..n + 8] == d[n..n + 8];
        var x := Load(blk[n..n + 8]);
        CipherNext(key, old(iv), d, n);
        iv := EncryptBlock(key, XorPair(iv, x));
        WriteBlock(blk, n, iv);
        n := n + 8;
      }
      assert d[..n] == d && blk[..n] == blk[..];
    }

    /** blowfish_decrypt_cbc: in place, block by block. */
    method DecryptCbc(blk: array<Octet>)
      requires key.Valid() && blk.Length % 8 == 0
      modifies this, blk
      ensures blk[..] == PlainOf(key, old(iv), old(blk[..])) && iv == LastOf(old(iv), old(blk[..]))
    {
      hide Decrypt, Load, Store, Xor, LastOf, PlainOf;
      ghost var c := blk[..];
      var n := 0;
      PlainNone(key, iv, c);
      while n < blk.Length
        invariant 0 <= n <= blk.Length && n % 8 == 0
        invariant iv == LastOf(old(iv), c[..n]) && blk[..n] == PlainOf(key, old(iv), c[..n])
        invariant forall i :: n <= i < blk.Length ==> blk[i] == c[i]
      {
        NextBlock(blk.Length, n);
        assert blk[n..n + 8] == c[n..n + 8];
        var x := Load(blk[n..n + 8]);
        PlainNext(key, old(iv), c, n);
        var y := DecryptBlock(key, x);
        WriteBlock(blk, n, XorPair(iv, y));
        iv := x;
        n := n + 8;
      }
      assert c[..n] == c && blk[..n] == blk[..];
    }

    /** bf_encrypt: a copy of the data, encrypted; no data is no work, and part blocks are refused. */
    method BfEncrypt(data: seq<Octet>) returns (r: Outcome)
      requires key.Valid()
      modifies this
      ensures if |data| % 8 != 0 then r == NotBlockSize && iv == old(iv)
        else r == Ok(CipherOf(key, old(iv), data)) && iv == ChainOf(key, old(iv), data)
    {
      if |data| == 0 { return Ok([]); }
      if |data| % 8 != 0 { return NotBlockSize; }
      var res := new Octet[|data|](i => if 0 <= i < |data| then data[i] else 0);
      assert res[..] == data;
      EncryptCbc(res);
      r := Ok(res[..]);
    }

    /** bf_decrypt. */
    method BfDecrypt(data: seq<Octet>) returns (r: Outcome)
      requires key.Valid()
      modifies this
      ensures if |data| % 8 != 0 then r == NotBlockSize && iv == old(iv)
        else r == Ok(PlainOf(key, old(iv), data)) && iv == LastOf(old(iv), data)
    {
      if |data| == 0 { return Ok([]); }
      if |data| % 8 != 0 { return NotBlockSize; }
      var res := new Octet[|data|](i => if 0 <= i < |data| then data[i] else 0);
      assert res[..] == data;
      DecryptCbc(res);
      r := Ok(res[..]);
    }
  }

  datatype Outcome = Ok(d: seq<Octet>) | NotBlockSize | DecryptFailed

  lemma NextBlock(len: nat, n: nat)
    requires n < len && len % 8 == 0 && n % 8 == 0
    ensures n + 8 <= len && (n + 8) % 8 == 0
  {}

  /** A block written over eight bytes. */
  method WriteBlock(blk: array<Octet>, at: nat, y: Pair)
    requires at + 8 <= blk.Length
    modifies blk
    ensures blk[..at + 8] == old(blk[..at]) + Store(y)
    ensures forall i :: at + 8 <= i < blk.Length ==> blk[i] == old(blk[i])
  {
    hide Store;
    var b := Store(y);
    forall i | 0 <= i < 8 { blk[at + i] := b[i]; }
  }

  lemma CipherNone(k: Key, iv: Pair, d: seq<Octet>)
    requires k.Valid()
    ensures ChainOf(k, iv, d[..0]) == iv && CipherOf(k, iv, d[..0]) == []
  {}

  lemma CipherNext(k: Key, iv: Pair, d: seq<Octet>, n: nat)
    requires k.Valid() && n + 8 <= |d| && n % 8 == 0
    ensures (n + 8) % 8 == 0
    ensures ChainOf(k, iv, d[..n + 8]) == Encrypt(k, XorPair(ChainOf(k, iv, d[..n]), Load(d[n..n + 8])))
    ensures CipherOf(k, iv, d[..n + 8]) == CipherOf(k, iv, d[..n]) + Store(ChainOf(k, iv, d[..n + 8]))
  {
    hide Encrypt, Load, Store, Xor;
    var e := d[..n + 8];
    assert e[..n] == d[..n] && e[n..] == d[n..n + 8];
  }

  lemma PlainNone(k: Key, iv: Pair, c: seq<Octet>)
    requires k.Valid()
    ensures LastOf(iv, c[..0]) == iv && PlainOf(k, iv, c[..0]) == []
  {}

  lemma PlainNext(k: Key, iv: Pair, c: seq<Octet>, n: nat)
    requires k.Valid() && n + 8 <= |c| && n % 8 == 0
    ensures (n + 8) % 8 == 0 && LastOf(iv, c[..n + 8]) == Load(c[n..n + 8])
    ensures PlainOf(k, iv, c[..n + 8]) ==
      PlainOf(k, iv, c[..n]) + Store(XorPair(LastOf(iv, c[..n]), Decrypt(k, Load(c[n..n + 8]))))
  {
    hide Decrypt, Load, Store, Xor;
    var e := c[..n + 8];
    assert e[..n] == c[..n] && e[n..] == c[n..n + 8];
  }

  /** Bytes from a length to the next block boundary, never none. */
  function PadLen(n: nat): (p: nat)
    ensures 1 <= p <= BS && (n + p) % 8 == 0
  {
    PadFits(n);
    BS - n % BS
  }

  lemma PadFits(n: nat)
    ensures 1 <= BS - n % BS <= BS && (n + (BS - n % BS)) % 8 == 0
  {
    var q := n / 8;
    assert n == 8 * q + n % 8;
    assert n + (8 - n % 8) == 8 * (q + 1);
  }

  /** What is encrypted: with padding always one more pad, without it zeros to the boundary. */
  function Filled(padding: bool, d: seq<Octet>): (f: seq<Octet>)
    ensures |f| % 8 == 0
  {
    if padding then d + Repeat(PadLen(|d|) as Octet, PadLen(|d|))
    else if |d| % 8 == 0 then d
    else d + Repeat(0, PadLen(|d|))
  }

  /** The pad is there: its length is a block at most, and all its bytes say so. */
  predicate PadOk(d: seq<Octet>) {
    d != [] && var p := d[|d| - 1] as int;
      0 < p <= BS && p <= |d| && forall i :: |d| - p <= i < |d| ==> d[i] == d[|d| - 1]
  }

  function Unpad(d: seq<Octet>): (r: seq<Octet>) {
    if PadOk(d) then d[..|d| - d[|d| - 1] as int] else d
  }

  lemma PadByte(p: nat)
    requires 1 <= p <= BS
    ensures p as Octet as int == p
  {
    if p == 1 {} else if p == 2 {} else if p == 3 {} else if p == 4 {}
      else if p == 5 {} else if p == 6 {} else if p == 7 {}
  }

  /** A padded message is unpadded to itself, whatever it ends in. */
  lemma UnpadFilled(d: seq<Octet>)
    ensures Unpad(Filled(true, d)) == d
  {
    var p := PadLen(|d|);
    PadByte(p);
    var f := Filled(true, d);
    assert f[|f| - 1] == p as Octet;
    assert f[..|f| - p] == d;
  }

  /** combo_encrypt: the whole blocks in one call, the rest and the pad in another. */
  method ComboEncrypt(c: Blowfish, padding: bool, data: seq<Octet>) returns (res: seq<Octet>)
    requires c.key.Valid()
    modifies c
    ensures res == CipherOf(c.key, old(c.iv), Filled(padding, data))
    ensures c.iv == ChainOf(c.key, old(c.iv), Filled(padding, data))
  {
    hide CipherOf, ChainOf, Repeat;
    var bpos := |data| % BS;
    var rlen := |data| - bpos;
    ghost var front, rest := data[..rlen], data[rlen..];
    var bbuf := new Octet[4 * BS](i => if 0 <= i < bpos then data[rlen + i] else 0);
    assert bbuf[..bpos] == rest;
    Front(|data|, padding, data);
    res := [];
    CipherNone(c.key, c.iv, front);
    ghost var iv := c.iv;
    if rlen > 0 {
      var r := c.BfEncrypt(data[..rlen]);
      res := r.d;
    } else {
      assert front == front[..0];
    }
    bpos := FillBlock(bbuf, bpos, padding);
    ghost var tail := bbuf[..bpos];
    TailOf(padding, data, rlen, tail);
    CipherConcat(c.key, iv, front, tail);
    CipherNone(c.key, c.iv, tail);
    if bpos > 0 {
      var r := c.BfEncrypt(bbuf[..bpos]);
      res := res + r.d;
    } else {
      assert tail == tail[..0];
    }
  }

  lemma Front(n: nat, padding: bool, data: seq<Octet>)
    requires n == |data|
    ensures (n - n % BS) % 8 == 0 && n % BS < 8
  {}

  /** The pad bytes after the left-over ones. */
  method FillBlock(bbuf: array<Octet>, bpos0: nat, padding: bool) returns (bpos: nat)
    requires bbuf.Length == 4 * BS && bpos0 < BS
    modifies bbuf
    ensures bpos <= 2 * BS && bpos % 8 == 0 && bbuf[..bpos] == Filled(padding, old(bbuf[..bpos0]))
  {
    bpos := bpos0;
    if padding || bpos % BS != 0 {
      var pad := BS - bpos % BS;
      var b: Octet := if padding then pad as Octet else 0;
      var i := 0;
      while i < pad
        invariant 0 <= i <= pad && bpos == bpos0 + i
        invariant bbuf[..bpos] == old(bbuf[..bpos0]) + Repeat(b, i)
      {
        bbuf[bpos] := b;
        bpos := bpos + 1;
        i := i + 1;
      }
    }
  }

  /** Padding the left-over bytes pads the message. */
  lemma TailOf(padding: bool, data: seq<Octet>, rlen: nat, tail: seq<Octet>)
    requires rlen <= |data| && rlen % 8 == 0 && |data| - rlen < 8 && tail == Filled(padding, data[rlen..])
    ensures Filled(padding, data) == data[..rlen] + tail
  {
    hide Repeat;
    SameRest(|data|, rlen);
    assert data == data[..rlen] + data[rlen..];
  }

  lemma SameRest(n: nat, m: nat)
    requires m <= n && m % 8 == 0
    ensures n % 8 == (n - m) % 8 && PadLen(n) == PadLen(n - m)
  {
    var q := m / 8;
    assert n - m == n - 8 * q;
  }

  /** combo_decrypt: a pad that is not right is left in place, without an error. */
  method ComboDecrypt(c: Blowfish, padding: bool, data: seq<Octet>) returns (r: Outcome)
    requires c.key.Valid()
    modifies c
    ensures data == [] ==> r == if padding then DecryptFailed else Ok([])
    ensures |data| % 8 != 0 ==> r == NotBlockSize
    ensures data != [] && |data| % 8 == 0 ==>
      var d := PlainOf(c.key, old(c.iv), data); r == Ok(if padding then Unpad(d) else d)
  {
    hide PlainOf;
    if |data| == 0 {
      return if padding then DecryptFailed else Ok([]);
    }
    if |data| % BS != 0 { return NotBlockSize; }
    r := c.BfDecrypt(data);
    if padding {
      var res := r.d;
      var rlen := |res|;
      var pad := res[rlen - 1] as int;
      var padOk := false;
      if pad > 0 && pad <= BS && pad <= rlen {
        padOk := CheckPad(res, rlen - pad);
      }
      if padOk { r := Ok(res[..rlen - pad]); }
    }
  }

  method CheckPad(res: seq<Octet>, from: nat) returns (ok: bool)
    requires from < |res|
    ensures ok <==> forall i :: from <= i < |res| ==> res[i] == res[|res| - 1]
  {
    var i := from;
    while i < |res|
      invariant from <= i <= |res| && forall k :: from <= k < i ==> res[k] == res[|res| - 1]
    {
      if res[i] != res[|res| - 1] { return false; }
      i := i + 1;
    }
    ok := true;
  }

  /** Encrypted under a key and an iv and decrypted under the same: the data, of any length. */
  method RoundTrip(key: Key, iv: Pair, data: seq<Octet>) returns (r: Outcome)
    requires key.Valid()
    ensures r == Ok(data)
  {
    hide CipherOf, PlainOf, ChainOf, LastOf, Unpad, Filled;
    var e := new Blowfish(key, iv);
    var c := ComboEncrypt(e, true, data);
    var d := new Blowfish(key, iv);
    FilledSome(data);
    PlainOfCipher(key, iv, Filled(true, data));
    UnpadFilled(data);
    r := ComboDecrypt(d, true, c);
  }

  lemma FilledSome(d: seq<Octet>)
    ensures |Filled(true, d)| >= 1
  {}

  /** Without padding the data is followed by zeros up to the next whole block, by none if there is nothing to fill. */
  lemma FilledZeros(d: seq<Octet>)
    ensures var f := Filled(false, d);
      |d| <= |f| < |d| + 8 && f[..|d|] == d && forall i :: |d| <= i < |f| ==> f[i] == 0
  {}

  /** With padding one to eight bytes follow, each saying how many they are. */
  lemma FilledPads(d: seq<Octet>)
    ensures var f := Filled(true, d);
      |d| < |f| <= |d| + 8 && f[..|d|] == d && forall i :: |d| <= i < |f| ==> f[i] as int == |f| - |d|
  {
    PadByte(PadLen(|d|));
  }
}
