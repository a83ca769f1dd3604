/** What the texts and checks of the node accept, said without the functions that check them:
    addresses, the fields of a payment, the text that is signed, and transaction hashes. */
module Formats {
  import opened Text
  import opened Types
  import opened Header
  import opened Blocks

  // ---------------------------------------------------------------- addresses

  /** 0x and the hexadecimal text, in either case, of 20 bytes. */
  predicate NamesTwentyBytes(address: Address) {
    && |address| >= 2 && address[..2] == "0x"
    && DecodeHex(address[2..]).Some? && |DecodeHex(address[2..]).value| == 20
  }

  lemma AddressIff(address: Address)
    ensures IsValidAddress(address) <==> NamesTwentyBytes(address)
  {
    if |address| >= 2 {
      DecodesIff(address[2..]);
      assert address[..2] == [address[0], address[1]];
    }
  }

  lemma HexJoins(s: string, t: string)
    requires IsHex(s) && IsHex(t)
    ensures IsHex(s + t)
  {
  }

  lemma GenesisMinerDigits()
    ensures IsHex("de589C8671") && IsHex("74C349d00e") && IsHex("9b582867aF") && IsHex("5c13A74679")
  {
  }

  lemma GenesisMinerText()
    ensures GENESIS_MINER == "0x" + (("de589C8671" + "74C349d00e") + ("9b582867aF" + "5c13A74679"))
  {
  }

  /** The first block's miner has an address, with capitals among its digits. */
  lemma GenesisMinerIsAddress()
    ensures IsValidAddress(GENESIS_MINER)
  {
    GenesisMinerDigits();
    HexJoins("de589C8671", "74C349d00e");
    HexJoins("9b582867aF", "5c13A74679");
    HexJoins("de589C8671" + "74C349d00e", "9b582867aF" + "5c13A74679");
    GenesisMinerText();
  }

  // ---------------------------------------------------------------- the fields of a payment

  /** The fields are accepted if and only if there is a signature, both addresses name 20 bytes, and
      the value is at least 1 and at most the largest signed 64-bit integer. */
  lemma FieldsIff(raw: RawTransaction)
    ensures FieldsValid(raw) <==>
            && raw.signature != "" && NamesTwentyBytes(raw.from) && NamesTwentyBytes(raw.to)
            && 1 <= raw.value <= 9223372036854775807
  {
    AddressIff(raw.from);
    AddressIff(raw.to);
  }

  // ---------------------------------------------------------------- the text that is signed

  /** Where sender, receiver, value and nonce stand in the text. */
  lemma MessageReads(raw: RawTransaction)
    requires FieldsValid(raw)
    ensures var s := Message(raw); var cut := 84 + |Decimal(raw.value)|;
            && |s| == cut + |Decimal(raw.nonce)|
            && s[..42] == raw.from && s[42..84] == raw.to
            && IsDecimal(s[84..cut]) && ParseDecimal(s[84..cut]) == raw.value
            && IsDecimal(s[cut..]) && ParseDecimal(s[cut..]) == raw.nonce
  {
    var v, n := Decimal(raw.value), Decimal(raw.nonce);
    Slices(raw.from, raw.to, v, n, "");
    assert Message(raw) == raw.from + raw.to + v + n + "";
    ParseDecimalInverts(raw.value);
    ParseDecimalInverts(raw.nonce);
  }

  lemma DecimalInjective(m: nat, n: nat)
    requires Decimal(m) == Decimal(n)
    ensures m == n
  {
    ParseDecimalInverts(m);
    ParseDecimalInverts(n);
  }

  lemma SamePrefix(a: string, b: string, c: string)
    requires a + c == b + c
    ensures a == b
  {
    assert |a| == |b|;
    assert a == (a + c)[..|a|] && b == (b + c)[..|b|];
  }

  lemma SameSuffix(a: string, b: string, c: string)
    requires c + a == c + b
    ensures a == b
  {
    assert a == (c + a)[|c|..] && b == (c + b)[|c|..];
  }

  /** Two payments have one signed text if and only if sender and receiver are the same and the digits
      of value and nonce, written next to each other, are. */
  lemma MessageBinds(raw: RawTransaction, raw': RawTransaction)
    requires FieldsValid(raw) && FieldsValid(raw')
    ensures Message(raw) == Message(raw') <==>
            && raw.from == raw'.from && raw.to == raw'.to
            && Decimal(raw.value) + Decimal(raw.nonce) == Decimal(raw'.value) + Decimal(raw'.nonce)
  {
    MessageParts(raw);
    MessageParts(raw');
  }

  lemma MessageParts(raw: RawTransaction)
    requires FieldsValid(raw)
    ensures var s, digits := Message(raw), Decimal(raw.value) + Decimal(raw.nonce);
            |s| > 84 && s[..42] == raw.from && s[42..84] == raw.to && s[84..] == digits && s == raw.from + raw.to + digits
  {
    var digits := Decimal(raw.value) + Decimal(raw.nonce);
    Slices(raw.from, raw.to, digits, "", "");
    assert raw.from + raw.to + Decimal(raw.value) + Decimal(raw.nonce) == raw.from + raw.to + digits + "" + "";
  }

  /** So a signature for one nonce is a signature of another text at every other nonce, and the same
      holds of the value. */
  lemma OtherNonceOtherText(raw: RawTransaction, nonce: nat)
    requires FieldsValid(raw) && nonce != raw.nonce
    ensures Message(raw.(nonce := nonce)) != Message(raw)
  {
    MessageBinds(raw, raw.(nonce := nonce));
    if Message(raw.(nonce := nonce)) == Message(raw) {
      SameSuffix(Decimal(raw.nonce), Decimal(nonce), Decimal(raw.value));
      DecimalInjective(raw.nonce, nonce);
    }
  }

  lemma OtherValueOtherText(raw: RawTransaction, value: int)
    requires FieldsValid(raw) && FieldsValid(raw.(value := value)) && value != raw.value
    ensures Message(raw.(value := value)) != Message(raw)
  {
    MessageBinds(raw, raw.(value := value));
    if Message(raw.(value := value)) == Message(raw) {
      SamePrefix(Decimal(raw.value), Decimal(value), Decimal(raw.nonce));
      DecimalInjective(raw.value, value);
    }
  }

  /** Both at once can change and leave the text as it is. */
  lemma OneTextTwoPayments(raw: RawTransaction)
    requires FieldsValid(raw)
    ensures Message(raw.(value := 1, nonce := 23)) == Message(raw.(value := 12, nonce := 3))
  {
    assert Decimal(1) == "1" && Decimal(2) == "2" && Decimal(3) == "3";
    assert Decimal(12) == "12" && Decimal(23) == "23";
    assert Decimal(1) + Decimal(23) == Decimal(12) + Decimal(3);
    MessageBinds(raw.(value := 1, nonce := 23), raw.(value := 12, nonce := 3));
  }

  /** The key recovered from some bytes and the Keccak value of a text belongs to an address. */
  predicate SignedBy(env: Env, text: string, bytes: seq<Byte>, address: Address) {
    env.recovers(env.keccak(Utf8(text)), bytes, address)
  }

  /** A signature is accepted if and only if it is the hexadecimal text of some bytes from which,
      together with the text of sender, receiver, value and nonce, the sender's key is recovered. */
  lemma SignatureIff(env: Env, raw: RawTransaction)
    requires FieldsValid(raw)
    ensures SignatureValid(env, raw) <==>
            exists bytes :: EncodeHex(bytes) == Lower(raw.signature)
                            && SignedBy(env, raw.from + raw.to + Decimal(raw.value) + Decimal(raw.nonce), bytes, raw.from)
  {
    var text := raw.from + raw.to + Decimal(raw.value) + Decimal(raw.nonce);
    assert Message(raw) == text;
    DecodesIff(raw.signature);
    if SignatureValid(env, raw) {
      var bytes := DecodeHex(raw.signature).value;
      EncodeDecodeHex(raw.signature);
      assert SignedBy(env, text, bytes, raw.from);
    }
    forall bytes | EncodeHex(bytes) == Lower(raw.signature) && SignedBy(env, text, bytes, raw.from)
      ensures SignatureValid(env, raw)
    {
      LowerIsHex(raw.signature);
      EncodeDecodeHex(raw.signature);
      DecodeEncodeHex(bytes);
      DecodeEncodeHex(DecodeHex(raw.signature).value);
    }
  }

  lemma LowerIsHex(s: string)
    requires IsHex(Lower(s))
    ensures IsHex(s)
  {
    forall i | 0 <= i < |s|
      ensures IsHexDigit(s[i])
    {
      assert IsHexDigit(Lower(s)[i]) && Lower(s)[i] == LowerChar(s[i]);
    }
  }

  // ---------------------------------------------------------------- transaction hashes

  /** A prefix 0x is taken off, once; anything else stays. */
  lemma TrimmedOnce(s: string)
    ensures TrimPrefix("0x" + s) == s
    ensures (forall rest :: s != "0x" + rest) ==> TrimPrefix(s) == s
  {
    assert ("0x" + s)[..2] == "0x" && ("0x" + s)[2..] == s;
    if |s| >= 2 && s[..2] == "0x" {
      assert s == "0x" + s[2..];
    }
  }

  /** A new transaction carries the digest of the JSON text of what was sent, and what was sent. */
  lemma HashOfContent(env: Env, raw: RawTransaction)
    ensures DecodeHex(TrimPrefix(Create(env, raw).hash)) == Some(env.keccak(env.encode(raw)))
    ensures Create(env, raw).hash == "0x" + EncodeHex(env.keccak(env.encode(raw)))
    ensures RawOf(Create(env, raw)) == raw
  {
    TrimmedOnce(EncodeHex(env.keccak(env.encode(raw))));
    DecodeEncodeHex(env.keccak(env.encode(raw)));
  }
}
