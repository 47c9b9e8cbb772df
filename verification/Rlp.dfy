/**
 The RLP encoder (Appendix B of the Ethereum Yellow Paper) and the EIP-155 signing payload, with a
 decoder as its partner.
 */
module Rlp {
  import opened Options

  /** Bytes are numbers; nothing below needs the bound 255. */
  type Bytes = seq<nat>

  datatype Item = Str(bytes: Bytes) | List(items: seq<Item>)

  const STR: nat := 0x80
  const LIST: nat := 0xC0

  // ------------------------------------------------------------------ encoding

  /** Minimal big-endian bytes; none for 0. */
  function BigEndian(n: nat): (r: Bytes)
    ensures n > 0 ==> r != []
  {
    if n == 0 then [] else BigEndian(n / 256) + [n % 256]
  }

  function Prefix(n: nat, offset: nat): Bytes {
    if n < 56 then [offset + n]
    else [offset + 55 + |BigEndian(n)|] + BigEndian(n)
  }

  function Encode(x: Item): Bytes {
    match x
    case Str(b) => if |b| == 1 && b[0] < STR then b else Prefix(|b|, STR) + b
    case List(items) => Prefix(|EncodeAll(items)|, LIST) + EncodeAll(items)
  }

  function EncodeAll(items: seq<Item>): Bytes {
    if items == [] then [] else Encode(items[0]) + EncodeAll(items[1..])
  }

  function Pow256(k: nat): nat {
    if k == 0 then 1 else 256 * Pow256(k - 1)
  }

  /** Every payload, nested ones included, is shorter than 2^64. */
  predicate Fits(x: Item) {
    match x
    case Str(b) => |b| < Pow256(8)
    case List(items) => |EncodeAll(items)| < Pow256(8) && forall i | 0 <= i < |items| :: Fits(items[i])
  }

  /** The bytes of a string: itself, a one-byte prefix, or a prefix, its length's bytes, and itself. */
  lemma StringBytes(b: Bytes)
    ensures |b| == 1 && b[0] < 128 ==> Encode(Str(b)) == b
    ensures |b| < 56 && !(|b| == 1 && b[0] < 128) ==> Encode(Str(b)) == [128 + |b|] + b
    ensures |b| >= 56 ==> Encode(Str(b)) == [183 + |BigEndian(|b|)|] + BigEndian(|b|) + b
  {
  }

  /** The bytes of a list: a prefix as for a string, 64 higher, and the encodings of its items in order. */
  lemma ListBytes(items: seq<Item>)
    ensures var body := EncodeAll(items);
      Encode(List(items))
      == (if |body| < 56 then [192 + |body|] else [247 + |BigEndian(|body|)|] + BigEndian(|body|)) + body
  {
  }

  // ------------------------------------------------------------------ decoding

  function Number(b: Bytes): nat {
    if b == [] then 0 else 256 * Number(b[..|b| - 1]) + b[|b| - 1]
  }

  /** The payload length a prefix announces and where the payload starts, for a string (`STR`) or list (`LIST`) offset. */
  function Header(b: Bytes, offset: nat): Option<(nat, nat)>
    requires b != [] && offset <= b[0]
  {
    if b[0] < offset + 56 then Some((b[0] - offset, 1))
    else
      var k := b[0] - offset - 55;
      if |b| < 1 + k then None else Some((Number(b[1..1 + k]), 1 + k))
  }

  /** One item from the front, with what follows it. */
  function Decode(b: Bytes): Option<(Item, Bytes)>
    decreases |b|, 1
  {
    if b == [] then None
    else if b[0] < STR then Some((Str(b[..1]), b[1..]))
    else
      var offset := if b[0] < LIST then STR else LIST;
      var h := Header(b, offset);
      if h.None? || |b| < h.value.1 + h.value.0 then None
      else
        var payload, rest := b[h.value.1..h.value.1 + h.value.0], b[h.value.1 + h.value.0..];
        if offset == STR then Some((Str(payload), rest))
        else
          var items := DecodeAll(payload);
          if items.None? then None else Some((List(items.value), rest))
  }

  function DecodeAll(b: Bytes): Option<seq<Item>>
    decreases |b|, 2
  {
    if b == [] then Some([])
    else
      var first := Decode(b);
      if first.None? || |first.value.1| >= |b| then None
      else
        var rest := DecodeAll(first.value.1);
        if rest.None? then None else Some([first.value.0] + rest.value)
  }

  // ------------------------------------------------------------------ the round trip

  lemma {:induction false} NumberOfBigEndian(n: nat)
    ensures Number(BigEndian(n)) == n
  {
    if n > 0 {
      NumberOfBigEndian(n / 256);
      var b := BigEndian(n);
      assert b[..|b| - 1] == BigEndian(n / 256);
    }
  }

  lemma {:induction false} BigEndianLength(n: nat, k: nat)
    ensures |BigEndian(n)| <= k <==> n < Pow256(k)
  {
    if n > 0 && k > 0 {
      BigEndianLength(n / 256, k - 1);
    } else if n > 0 {
      assert |BigEndian(n)| > 0;
    } else {
      PowPositive(k);
    }
  }

  lemma {:induction false} PowPositive(k: nat)
    ensures Pow256(k) > 0
  {
    if k > 0 { PowPositive(k - 1); }
  }

  /** The prefix of a payload below 2^64 tells its length, and stays inside its offset's range. */
  lemma HeaderOfPrefix(n: nat, offset: nat, rest: Bytes)
    requires n < Pow256(8)
    ensures var p := Prefix(n, offset);
      p != [] && offset <= p[0] <= offset + 63 && Header(p + rest, offset) == Some((n, |p|))
  {
    BigEndianLength(n, 8);
    NumberOfBigEndian(n);
    var p := Prefix(n, offset);
    if n >= 56 {
      assert BigEndian(n) != [];
      assert (p + rest)[1..1 + |BigEndian(n)|] == BigEndian(n);
    }
  }

  lemma DecodeFramed(n: nat, offset: nat, payload: Bytes, rest: Bytes)
    requires n < Pow256(8) && |payload| == n && (offset == STR || offset == LIST)
    ensures var b := Prefix(n, offset) + payload + rest;
      && b != [] && STR <= b[0] && (b[0] < LIST <==> offset == STR)
      && Header(b, offset) == Some((n, |Prefix(n, offset)|))
      && |b| >= |Prefix(n, offset)| + n
      && b[|Prefix(n, offset)|..|Prefix(n, offset)| + n] == payload
      && b[|Prefix(n, offset)| + n..] == rest
  {
    var p := Prefix(n, offset);
    HeaderOfPrefix(n, offset, payload + rest);
    assert p + payload + rest == p + (payload + rest);
  }

  /** Decoding undoes encoding, whatever follows. */
  lemma {:induction false} RoundTrip(x: Item, rest: Bytes)
    requires Fits(x)
    ensures Decode(Encode(x) + rest) == Some((x, rest))
    decreases x, 1, 0
  {
    match x
    case Str(s) =>
      if |s| == 1 && s[0] < STR {
        assert (s + rest)[..1] == s && (s + rest)[1..] == rest;
      } else {
        DecodeFramed(|s|, STR, s, rest);
      }
    case List(items) =>
      var payload := EncodeAll(items);
      DecodeFramed(|payload|, LIST, payload, rest);
      RoundTripAll(x, items);
  }

  lemma {:induction false} RoundTripAll(x: Item, items: seq<Item>)
    requires x.List? && |items| <= |x.items| && items == x.items[|x.items| - |items|..]
    requires forall i | 0 <= i < |items| :: Fits(items[i])
    ensures DecodeAll(EncodeAll(items)) == Some(items)
    decreases x, 0, |items|
  {
    if items != [] {
      var y, more := items[0], items[1..];
      assert y == x.items[|x.items| - |items|];
      RoundTrip(y, EncodeAll(more));
      EncodeNonEmpty(y);
      RoundTripAll(x, more);
      assert items == [y] + more;
    }
  }

  lemma EncodeNonEmpty(x: Item)
    ensures Encode(x) != []
  {
  }

  /** No encoding is a proper beginning of another, so encodings are also injective. */
  lemma PrefixFree(x: Item, y: Item, more: Bytes)
    requires Fits(x) && Fits(y) && Encode(y) == Encode(x) + more
    ensures x == y && more == []
  {
    RoundTrip(x, more);
    RoundTrip(y, []);
    assert Encode(y) + [] == Encode(x) + more;
  }

  /** Exactly which strings survive a round trip: those shorter than 2^64. */
  lemma StringRoundTripIff(s: Bytes, rest: Bytes)
    ensures Decode(Encode(Str(s)) + rest) == Some((Str(s), rest)) <==> |s| < Pow256(8)
  {
    if |s| < Pow256(8) {
      RoundTrip(Str(s), rest);
    } else {
      LongStringLooksLikeList(s, rest);
    }
  }

  /** At 2^64 bytes the length no longer fits the prefix, and a string's first byte is a list's. */
  lemma LongStringLooksLikeList(s: Bytes, rest: Bytes)
    requires |s| >= Pow256(8)
    ensures var d := Decode(Encode(Str(s)) + rest); d.None? || d.value.0.List?
  {
    hide Pow256, Header, DecodeAll;
    BigEndianLength(|s|, 8);
    assert Pow256(8) > 56 by { PowEight(); }
    var b := Encode(Str(s)) + rest;
    assert b[0] == STR + 55 + |BigEndian(|s|)| >= LIST;
  }

  lemma PowEight()
    ensures Pow256(8) == 0x1_0000_0000_0000_0000
  {
  }

  /** A string of 2^64 bytes starts with the whole encoding of the empty list. */
  lemma LongStringStartsWithEmptyList(s: Bytes)
    requires |s| == Pow256(8)
    ensures Encode(List([])) <= Encode(Str(s))
  {
    hide Pow256;
    PowEight();
    BigEndianLength(|s|, 8);
    BigEndianLength(|s|, 9);
    assert Pow256(9) == 256 * Pow256(8) by { PowNine(); }
  }

  lemma PowNine()
    ensures Pow256(9) == 256 * Pow256(8)
  {
  }

  // ------------------------------------------------------------------ signed transactions

  /** What a legacy transaction signs and carries; `parity` is the signature's recovery bit. */
  datatype Tx = Tx(nonce: nat, gasPrice: nat, gasLimit: nat, to: Bytes, value: nat, chainId: nat)

  datatype Signature = Signature(parity: nat, r: nat, s: nat)

  function Int(n: nat): Item {
    Str(BigEndian(n))
  }

  /** The list whose hash is signed (EIP-155). */
  function SigningItem(t: Tx): Item {
    List([Int(t.nonce), Int(t.gasPrice), Int(t.gasLimit), Str(t.to), Int(t.value), Str([]), Int(t.chainId), Str([]),
        Str([])])
  }

  function SignedItem(t: Tx, g: Signature): Item {
    List([Int(t.nonce), Int(t.gasPrice), Int(t.gasLimit), Str(t.to), Int(t.value), Str([]),
          Int(t.chainId * 2 + 35 + g.parity), Int(g.r), Int(g.s)])
  }

  /**
   What the fields carry: the signed list repeats the first six of the signing list, and in place
   of the chain id and two empty strings it holds v = 2 * chain id + 35 + parity, r and s.
   */
  lemma SignedFields(t: Tx, g: Signature)
    ensures var a, b := SigningItem(t).items, SignedItem(t, g).items;
      && |a| == |b| == 9 && a[..6] == b[..6]
      && a[0].Str? && Number(a[0].bytes) == t.nonce
      && a[1].Str? && Number(a[1].bytes) == t.gasPrice
      && a[2].Str? && Number(a[2].bytes) == t.gasLimit
      && a[3] == Str(t.to)
      && a[4].Str? && Number(a[4].bytes) == t.value
      && a[5] == a[7] == a[8] == Str([])
      && a[6].Str? && Number(a[6].bytes) == t.chainId
      && b[6].Str? && Number(b[6].bytes) == 2 * t.chainId + 35 + g.parity
      && b[7].Str? && Number(b[7].bytes) == g.r
      && b[8].Str? && Number(b[8].bytes) == g.s
  {
    hide BigEndian, Number;
    NumberOfBigEndian(t.nonce);
    NumberOfBigEndian(t.gasPrice);
    NumberOfBigEndian(t.gasLimit);
    NumberOfBigEndian(t.value);
    NumberOfBigEndian(t.chainId);
    NumberOfBigEndian(t.chainId * 2 + 35 + g.parity);
    NumberOfBigEndian(g.r);
    NumberOfBigEndian(g.s);
  }

  lemma IntInjective(m: nat, n: nat)
    requires Int(m) == Int(n)
    ensures m == n
  {
    NumberOfBigEndian(m);
    NumberOfBigEndian(n);
  }

  /** Different transactions have different signing payloads, the chain id included. */
  lemma SigningPayloadInjective(t: Tx, u: Tx)
    requires Fits(SigningItem(t)) && Fits(SigningItem(u)) && Encode(SigningItem(t)) == Encode(SigningItem(u))
    ensures t == u
  {
    hide Encode, Fits;
    assert Encode(SigningItem(u)) + [] == Encode(SigningItem(u));
    PrefixFree(SigningItem(t), SigningItem(u), []);
    var a, b := SigningItem(t).items, SigningItem(u).items;
    assert a[0] == b[0] && a[1] == b[1] && a[2] == b[2] && a[3] == b[3] && a[4] == b[4] && a[6] == b[6];
    IntInjective(t.nonce, u.nonce);
    IntInjective(t.gasPrice, u.gasPrice);
    IntInjective(t.gasLimit, u.gasLimit);
    IntInjective(t.value, u.value);
    IntInjective(t.chainId, u.chainId);
  }

  /** Different signed fields give different bytes: the chain id and the parity come back out of v. */
  lemma SignedBytesInjective(t: Tx, g: Signature, u: Tx, h: Signature)
    requires Fits(SignedItem(t, g)) && Fits(SignedItem(u, h)) && g.parity < 2 && h.parity < 2
    requires Encode(SignedItem(t, g)) == Encode(SignedItem(u, h))
    ensures t == u && g == h
  {
    hide Encode, Fits;
    PrefixFree(SignedItem(t, g), SignedItem(u, h), []);
    var a, b := SignedItem(t, g).items, SignedItem(u, h).items;
    assert a[0] == b[0] && a[1] == b[1] && a[2] == b[2] && a[3] == b[3] && a[4] == b[4] && a[6] == b[6]
        && a[7] == b[7] && a[8] == b[8];
    IntInjective(t.nonce, u.nonce);
    IntInjective(t.gasPrice, u.gasPrice);
    IntInjective(t.gasLimit, u.gasLimit);
    IntInjective(t.value, u.value);
    IntInjective(t.chainId * 2 + 35 + g.parity, u.chainId * 2 + 35 + h.parity);
    IntInjective(g.r, h.r);
    IntInjective(g.s, h.s);
  }
}
