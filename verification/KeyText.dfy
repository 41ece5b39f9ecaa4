// Secret and public keys as text: base 58 with a checksum of four bytes. The
// hash functions are any functions giving at least four bytes.
module KeyText {
  import opened Wrappers
  import opened Radix
  import opened Base58

  type Bytes = seq<Byte>
  type Hash = Bytes -> Bytes

  ghost predicate FourOrMore(h: Hash) {
    forall x :: |h(x)| >= 4
  }

  const VERSION: Byte := 0x80

  function DecodedBytes(s: string): Bytes {
    DecodedIsBytes(s);
    Decoded(s)
  }

  // --- Secret keys ---

  function Checksum(sha: Hash, body: Bytes): (c: Bytes)
    requires FourOrMore(sha)
    ensures |c| == 4
  {
    sha(sha(body))[..4]
  }

  function SkToWif(sha: Hash, secret: Bytes): string
    requires FourOrMore(sha)
  {
    var body := [VERSION] + secret;
    Encoded(body + Checksum(sha, body))
  }

  function WifToSk(sha: Hash, wif: string): Option<nat>
    requires FourOrMore(sha)
  {
    var vch := DecodedBytes(wif);
    if vch != [] && vch[0] != VERSION then None
    else if |vch| != 37 then None
    else
      var secret := vch[1..|vch| - 4];
      if Checksum(sha, [VERSION] + secret) != vch[|vch| - 4..] then None
      else Some(Val(secret, 256))
  }

  // The text is accepted exactly when its bytes are the version, some 32 bytes
  // and their checksum; the key is the number those 32 bytes are.
  lemma WifBytes(sha: Hash, wif: string, k: Bytes)
    requires FourOrMore(sha) && |k| == 32
    requires DecodedBytes(wif) == [VERSION] + k + Checksum(sha, [VERSION] + k)
    ensures WifToSk(sha, wif) == Some(Val(k, 256))
  {
    hide Decoded, Checksum, Val;
    var c := Checksum(sha, [VERSION] + k);
    assert |c| == 4;
    var vch := [VERSION] + k + c;
    assert vch[1..|vch| - 4] == k && vch[|vch| - 4..] == c;
  }

  lemma WifSplit(sha: Hash, wif: string) returns (k: Bytes)
    requires FourOrMore(sha) && WifToSk(sha, wif).Some?
    ensures |k| == 32 && WifToSk(sha, wif) == Some(Val(k, 256))
    ensures DecodedBytes(wif) == [VERSION] + k + Checksum(sha, [VERSION] + k)
  {
    hide Decoded, Checksum, Val;
    var vch := DecodedBytes(wif);
    k := vch[1..33];
    assert |vch| == 37 && vch == [vch[0]] + vch[1..33] + vch[33..];
  }

  lemma WifRoundTrip(sha: Hash, k: Bytes)
    requires FourOrMore(sha) && |k| == 32
    ensures WifToSk(sha, SkToWif(sha, k)) == Some(Val(k, 256))
  {
    hide Decoded, Encoded, Checksum, Val;
    DecodeEncoded([VERSION] + k + Checksum(sha, [VERSION] + k));
    WifBytes(sha, SkToWif(sha, k), k);
  }

  // The text of a secret key, byte by byte: 0x80, the key, and the first four
  // bytes of the hash of the hash of both.
  lemma WifTextIs(sha: Hash, k: Bytes)
    requires FourOrMore(sha)
    ensures DecodedBytes(SkToWif(sha, k)) == [0x80] + k + sha(sha([0x80] + k))[..4]
  {
    hide Decoded, Encoded;
    DecodeEncoded([0x80] + k + sha(sha([0x80] + k))[..4]);
  }

  // A text is accepted exactly when its bytes have that form for a key of 32
  // bytes.
  lemma WifAcceptsBytes(sha: Hash, wif: string)
    requires FourOrMore(sha)
    ensures WifToSk(sha, wif).Some? <==>
            exists k: Bytes :: |k| == 32 && DecodedBytes(wif) == [0x80] + k + sha(sha([0x80] + k))[..4]
    ensures forall k: Bytes | |k| == 32 && DecodedBytes(wif) == [0x80] + k + sha(sha([0x80] + k))[..4] ::
      WifToSk(sha, wif) == Some(Val(k, 256))
  {
    hide Decoded, Val, WifToSk;
    forall k: Bytes | |k| == 32 && DecodedBytes(wif) == [0x80] + k + sha(sha([0x80] + k))[..4]
      ensures WifToSk(sha, wif) == Some(Val(k, 256))
    {
      WifBytes(sha, wif, k);
    }
    if WifToSk(sha, wif).Some? {
      var k := WifSplit(sha, wif);
      assert DecodedBytes(wif) == [0x80] + k + sha(sha([0x80] + k))[..4];
    }
  }

  // White space around a text of bytes changes nothing.
  lemma FramedBytes(s: string, raw: Bytes)
    ensures Frames(s, Encoded(raw)) ==> DecodedBytes(s) == raw
    ensures IsBase58(s) && DecodedBytes(s) == raw ==> Frames(s, Encoded(raw))
  {
    hide Decoded, Encoded, InAlphabet, Frames, TheWord;
    DecodeEncoded(raw);
    DecodedFramed(s);
    if IsBase58(s) {
      var w :| InAlphabet(w) && Frames(s, w);
      EncodeDecoded(w);
    }
  }

  // Any text is accepted exactly when it is the text of a key of 32 bytes, with
  // white space around it or not, and that key is the one it gives.
  lemma WifAccepts(sha: Hash, wif: string)
    requires FourOrMore(sha)
    ensures WifToSk(sha, wif).Some? <==> exists k: Bytes :: |k| == 32 && Frames(wif, SkToWif(sha, k))
    ensures forall k: Bytes | |k| == 32 && Frames(wif, SkToWif(sha, k)) :: WifToSk(sha, wif) == Some(Val(k, 256))
  {
    hide Decoded, Encoded, Checksum, Val, InAlphabet, Frames, IsBase58;
    forall k: Bytes | |k| == 32 && Frames(wif, SkToWif(sha, k)) ensures WifToSk(sha, wif) == Some(Val(k, 256)) {
      FramedBytes(wif, [VERSION] + k + Checksum(sha, [VERSION] + k));
      WifBytes(sha, wif, k);
    }
    if WifToSk(sha, wif).Some? {
      var k := WifSplit(sha, wif);
      DecodedFramed(wif);
      FramedBytes(wif, [VERSION] + k + Checksum(sha, [VERSION] + k));
      assert Frames(wif, SkToWif(sha, k));
    }
  }

  // The number tells 32-byte keys apart, so no two keys share a text.
  lemma {:induction false} SameNumber(a: seq<nat>, b: seq<nat>, base: nat)
    requires |a| == |b| && IsNumeral(a, base) && IsNumeral(b, base) && Val(a, base) == Val(b, base)
    ensures a == b
  {
    if a != [] {
      var n := |a| - 1;
      DigitOut(Val(a[..n], base), a[n], base);
      DigitOut(Val(b[..n], base), b[n], base);
      SameNumber(a[..n], b[..n], base);
      assert a == a[..n] + [a[n]] && b == b[..n] + [b[n]];
    }
  }

  lemma WifInjective(sha: Hash, k: Bytes, m: Bytes)
    requires FourOrMore(sha) && |k| == |m| == 32 && SkToWif(sha, k) == SkToWif(sha, m)
    ensures k == m
  {
    hide SkToWif, WifToSk;
    WifRoundTrip(sha, k);
    WifRoundTrip(sha, m);
    SameNumber(k, m, 256);
  }

  // --- Public keys ---

  function Tag(ripemd: Hash, key: Bytes): (c: Bytes)
    requires FourOrMore(ripemd)
    ensures |c| == 4
  {
    ripemd(key)[..4]
  }

  function PkToBase58(ripemd: Hash, key: Bytes): string
    requires FourOrMore(ripemd)
  {
    Encoded(key + Tag(ripemd, key))
  }

  // pk is what the caller's variable holds before the call.
  function Base58ToPkHex(ripemd: Hash, s: string, pk: Bytes): (bool, Bytes)
    requires FourOrMore(ripemd)
  {
    var vch := DecodedBytes(s);
    if |vch| > 4 then
      var result := vch[..|vch| - 4];
      if Tag(ripemd, result) != vch[|vch| - 4..] then (false, pk) else (true, result)
    else (true, pk)
  }

  // The key comes back unless it is empty: then the caller's variable is left
  // as it was.
  lemma PkRoundTrip(ripemd: Hash, key: Bytes, pk: Bytes)
    requires FourOrMore(ripemd)
    ensures Base58ToPkHex(ripemd, PkToBase58(ripemd, key), pk) == (true, if key == [] then pk else key)
  {
    hide Decoded, Encoded, Tag;
    var c := Tag(ripemd, key);
    DecodeEncoded(key + c);
    assert (key + c)[..|key|] == key && (key + c)[|key|..] == c;
  }

  // The text of a public key, byte by byte: the key and the first four bytes of
  // its hash.
  lemma PkTextIs(ripemd: Hash, key: Bytes)
    requires FourOrMore(ripemd)
    ensures DecodedBytes(PkToBase58(ripemd, key)) == key + ripemd(key)[..4]
  {
    hide Decoded, Encoded;
    DecodeEncoded(key + ripemd(key)[..4]);
  }

  // Over four bytes, a text is accepted exactly when its bytes have that form,
  // and the key is then what stands in front of the last four.
  lemma PkAcceptsBytes(ripemd: Hash, s: string, pk: Bytes)
    requires FourOrMore(ripemd) && |DecodedBytes(s)| > 4
    ensures var vch := DecodedBytes(s); var n := |vch| - 4;
      Base58ToPkHex(ripemd, s, pk) ==
        if vch[n..] == ripemd(vch[..n])[..4] then (true, vch[..n]) else (false, pk)
  {
    hide Decoded;
  }

  // The text of a non-empty key, with white space around it or not.
  ghost predicate IsKeyText(ripemd: Hash, s: string)
    requires FourOrMore(ripemd)
  {
    exists key: Bytes :: key != [] && Frames(s, PkToBase58(ripemd, key))
  }

  ghost predicate IsTagged(ripemd: Hash, vch: Bytes)
    requires FourOrMore(ripemd)
  {
    exists key: Bytes :: key != [] && vch == key + Tag(ripemd, key)
  }

  // Key texts are the texts whose bytes are a key and its tag.
  lemma KeyTextIsTagged(ripemd: Hash, s: string)
    requires FourOrMore(ripemd)
    ensures IsKeyText(ripemd, s) <==> IsTagged(ripemd, DecodedBytes(s))
  {
    hide Decoded, Encoded, Tag, InAlphabet, Frames, IsBase58;
    if IsKeyText(ripemd, s) {
      var key: Bytes :| key != [] && Frames(s, PkToBase58(ripemd, key));
      FramedBytes(s, key + Tag(ripemd, key));
    }
    if IsTagged(ripemd, DecodedBytes(s)) {
      var key: Bytes :| key != [] && DecodedBytes(s) == key + Tag(ripemd, key);
      DecodedFramed(s);
      FramedBytes(s, key + Tag(ripemd, key));
      assert Frames(s, PkToBase58(ripemd, key));
    }
  }

  // For any text the answer is true for the key texts, and also for every text
  // of at most four bytes; none of those is a key text.
  lemma PkAccepts(ripemd: Hash, s: string, pk: Bytes)
    requires FourOrMore(ripemd)
    ensures Base58ToPkHex(ripemd, s, pk).0 <==> IsKeyText(ripemd, s) || |Decoded(s)| <= 4
    ensures |Decoded(s)| <= 4 ==> !IsKeyText(ripemd, s)
    ensures forall key: Bytes | key != [] && Frames(s, PkToBase58(ripemd, key)) ::
      Base58ToPkHex(ripemd, s, pk) == (true, key)
  {
    hide Decoded, Encoded, Tag, Frames, IsKeyText;
    var vch := DecodedBytes(s);
    KeyTextIsTagged(ripemd, s);
    forall key: Bytes | key != [] && vch == key + Tag(ripemd, key)
      ensures |vch| > 4 && Base58ToPkHex(ripemd, s, pk) == (true, key)
    {
      assert |Tag(ripemd, key)| == 4;
      assert vch[..|vch| - 4] == key && vch[|vch| - 4..] == Tag(ripemd, key);
    }
    forall key: Bytes | key != [] && Frames(s, PkToBase58(ripemd, key))
      ensures vch == key + Tag(ripemd, key)
    {
      FramedBytes(s, key + Tag(ripemd, key));
    }
    if |vch| > 4 && Base58ToPkHex(ripemd, s, pk).0 {
      var key := vch[..|vch| - 4];
      assert vch == key + vch[|vch| - 4..];
      assert IsTagged(ripemd, vch);
    }
  }

  // So base58_to_pk_hex tells key texts from all other texts if and only if the
  // text decodes to more than four bytes.
  lemma PkVerdictRight(ripemd: Hash, s: string, pk: Bytes)
    requires FourOrMore(ripemd)
    ensures (Base58ToPkHex(ripemd, s, pk).0 <==> IsKeyText(ripemd, s)) <==> |Decoded(s)| > 4
  {
    hide Base58ToPkHex, IsKeyText, Decoded;
    PkAccepts(ripemd, s, pk);
  }

  // Every text that is not base 58 is accepted, with pk left as it was.
  lemma PkAcceptsMalformed(ripemd: Hash, s: string, pk: Bytes)
    requires FourOrMore(ripemd) && !IsBase58(s)
    ensures Base58ToPkHex(ripemd, s, pk) == (true, pk) && !IsKeyText(ripemd, s)
  {
    hide Decoded, IsBase58, IsKeyText;
    DecodedFramed(s);
    PkAccepts(ripemd, s, pk);
  }

  // No text, and a text that is not base 58, are both accepted.
  lemma PkAcceptsNoKey(ripemd: Hash, pk: Bytes)
    requires FourOrMore(ripemd)
    ensures Base58ToPkHex(ripemd, "", pk) == (true, pk)
    ensures Base58ToPkHex(ripemd, "0", pk) == (true, pk)
  {
    assert Decoded("") == [] by {
      assert Word("") == "";
    }
    assert Decoded("0") == [] by {
      NotBase58();
    }
  }

  lemma NotBase58()
    ensures Decoded("0") == []
  {
    var s := "0";
    assert s[1..] == "" && CString(s[1..]) == "";
    assert CString(s) == s;
    assert SkipSpaces(s) == s;
    assert Word(s)[0] in Word(s);
  }
}
