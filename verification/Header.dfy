/** The text a block hash is taken of. Its five fields are printed one after the other with
    nothing in between; a parser shows that they can still be told apart. */
module Header {
  import opened Text
  import opened Types

  datatype Fields = Fields(number: nat, parentHash: string, merkleRoot: string, miner: Address, timestamp: nat)

  function FieldsOf(block: Block): Fields {
    Fields(block.number, block.parentHash, block.merkleRoot, block.miner, block.timestamp)
  }

  function Print(f: Fields): string {
    Decimal(f.number) + f.parentHash + f.merkleRoot + f.miner + Decimal(f.timestamp)
  }

  /** The block hash: the Keccak value of the header text, in hexadecimal. */
  function HashOf(keccak: seq<Byte> -> Digest, f: Fields): (hash: string)
    ensures |hash| == 64 && IsHex(hash)
  {
    EncodeHex(keccak(Utf8(Print(f))))
  }

  predicate IsHash(s: string) {
    |s| == 64 && IsHex(s)
  }

  predicate WellFormed(f: Fields) {
    IsHash(f.parentHash) && IsHash(f.merkleRoot) && IsValidAddress(f.miner)
  }

  function IndexOfX(s: string): (i: nat)
    ensures i <= |s|
    ensures forall k :: 0 <= k < i ==> s[k] != 'x'
    ensures i < |s| ==> s[i] == 'x'
  {
    if s == "" || s[0] == 'x' then 0 else 1 + IndexOfX(s[1..])
  }

  /** Finds the only x, the second character of the miner, and cuts the text around it. */
  function Parse(s: string): Option<Fields> {
    var x := IndexOfX(s);
    if x < 130 || |s| < x + 41 || !IsDecimal(s[..x - 129]) || !IsDecimal(s[x + 41..]) then None
    else Some(Fields(ParseDecimal(s[..x - 129]), s[x - 129..x - 65], s[x - 65..x - 1], s[x - 1..x + 41],
                     ParseDecimal(s[x + 41..])))
  }

  lemma Slices(a: string, b: string, c: string, d: string, e: string)
    ensures var s := a + b + c + d + e; var i, j, k := |a| + |b|, |a| + |b| + |c|, |a| + |b| + |c| + |d|;
            s[..|a|] == a && s[|a|..i] == b && s[i..j] == c && s[j..k] == d && s[k..] == e
  {
  }

  lemma FirstX(s: string, i: nat)
    requires i < |s| && s[i] == 'x' && forall k :: 0 <= k < i ==> s[k] != 'x'
    ensures IndexOfX(s) == i
  {
  }

  lemma XOfPrint(f: Fields)
    requires WellFormed(f)
    ensures IndexOfX(Print(f)) == |Decimal(f.number)| + 129
  {
    var a := Decimal(f.number);
    var s := Print(f);
    Slices(a, f.parentHash, f.merkleRoot, f.miner, Decimal(f.timestamp));
    var i := |a| + 129;
    assert s[i] == s[i - 1..i + 41][1] == 'x';
    forall k | 0 <= k < i
      ensures s[k] != 'x'
    {
      if k < |a| {
        assert s[k] == a[k];
      } else if k < |a| + 64 {
        assert s[k] == f.parentHash[k - |a|];
        assert IsHexDigit(s[k]);
      } else if k < |a| + 128 {
        assert s[k] == f.merkleRoot[k - |a| - 64];
        assert IsHexDigit(s[k]);
      } else {
        assert s[k] == f.miner[0];
      }
    }
    FirstX(s, i);
  }

  /** The parser inverts the printer on every header with real hashes and a real miner address. */
  lemma ParseInvertsPrint(f: Fields)
    requires WellFormed(f)
    ensures Parse(Print(f)) == Some(f)
  {
    Slices(Decimal(f.number), f.parentHash, f.merkleRoot, f.miner, Decimal(f.timestamp));
    XOfPrint(f);
    ParseDecimalInverts(f.number);
    ParseDecimalInverts(f.timestamp);
  }

  /** Where the fields stand in the text. */
  lemma PrintReads(f: Fields)
    requires WellFormed(f)
    ensures var s, d := Print(f), |Decimal(f.number)|;
            && |s| == d + 170 + |Decimal(f.timestamp)|
            && s[..d] == Decimal(f.number)
            && s[d..d + 64] == f.parentHash
            && s[d + 64..d + 128] == f.merkleRoot
            && s[d + 128..d + 170] == f.miner
            && s[d + 170..] == Decimal(f.timestamp)
  {
    Slices(Decimal(f.number), f.parentHash, f.merkleRoot, f.miner, Decimal(f.timestamp));
  }

  lemma PrintIsAscii(f: Fields)
    requires WellFormed(f)
    ensures IsAscii(Print(f))
  {
  }

  /** Different headers that are hashed alike are two different byte strings with one Keccak value. */
  ghost predicate HeaderCollision(keccak: seq<Byte> -> Digest, f: Fields, g: Fields) {
    Utf8(Print(f)) != Utf8(Print(g)) && keccak(Utf8(Print(f))) == keccak(Utf8(Print(g)))
  }

  /** A block hash binds all five header fields, unless the two headers collide under Keccak. */
  lemma HashBindsHeader(keccak: seq<Byte> -> Digest, f: Fields, g: Fields)
    requires WellFormed(f) && WellFormed(g) && HashOf(keccak, f) == HashOf(keccak, g)
    ensures f == g || HeaderCollision(keccak, f, g)
  {
    DecodeEncodeHex(keccak(Utf8(Print(f))));
    DecodeEncodeHex(keccak(Utf8(Print(g))));
    if Utf8(Print(f)) == Utf8(Print(g)) {
      PrintIsAscii(f);
      PrintIsAscii(g);
      Utf8Injective(Print(f), Print(g));
      ParseInvertsPrint(f);
      ParseInvertsPrint(g);
    }
  }

  /** The miner has to be an address for this: with one digit too many it runs into the timestamp. */
  lemma LongMinerIsAmbiguous(f: Fields)
    requires WellFormed(f)
    ensures var g, h := f.(timestamp := 12), f.(miner := f.miner + "1", timestamp := 2);
            g != h && Print(g) == Print(h)
  {
  }

  // ---------------------------------------------------------------- the first block

  const GENESIS_MINER: Address := "0xde589C867174C349d00e9b582867aF5c13A74679"

  const GENESIS_FIELDS := Fields(1, "0x0", "0x0", GENESIS_MINER, 0)

  /** The text the first block's hash is taken of. */
  lemma GenesisPrinted()
    ensures Print(GENESIS_FIELDS) == "10x00x0" + "0xde589C867174C349d00e9b582867aF5c13A74679" + "0"
  {
    assert Decimal(1) == "1" && Decimal(0) == "0";
  }

  lemma GenesisPrefix(miner: Address)
    ensures var s := Print(Fields(1, "0x0", "0x0", miner, 0));
            |s| > 2 && s[0] == '1' && s[1] == '0' && s[2] == 'x'
  {
  }

  lemma GenesisText()
    ensures IsAscii(Print(GENESIS_FIELDS)) && IndexOfX(Print(GENESIS_FIELDS)) == 2
  {
    GenesisPrefix(GENESIS_MINER);
    FirstX(Print(GENESIS_FIELDS), 2);
    assert IsAscii(GENESIS_MINER);
  }

  /** The header text of the first block is unlike that of any block with real hashes. */
  lemma GenesisUnlike(keccak: seq<Byte> -> Digest, f: Fields)
    requires WellFormed(f) && HashOf(keccak, f) == HashOf(keccak, GENESIS_FIELDS)
    ensures HeaderCollision(keccak, f, GENESIS_FIELDS)
  {
    DecodeEncodeHex(keccak(Utf8(Print(f))));
    DecodeEncodeHex(keccak(Utf8(Print(GENESIS_FIELDS))));
    XOfPrint(f);
    GenesisText();
    assert Print(f) != Print(GENESIS_FIELDS);
    PrintIsAscii(f);
    if Utf8(Print(f)) == Utf8(Print(GENESIS_FIELDS)) {
      Utf8Injective(Print(f), Print(GENESIS_FIELDS));
    }
  }
}
