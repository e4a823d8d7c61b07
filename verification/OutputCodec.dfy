/**
 How a single output is stored: `CTxOutCompressor` (src/compressor.h), the compressed amount as a variable-length
 integer and then the rest, whose encoding is an arbitrary sound codec.
 */
module OutputCodec {
  import opened VarInt
  import opened Amounts
  import opened Coins
  import opened CoinsCodec

  // ----- reading a variable-length integer, as a function

  /** The first byte from `at` on that ends a number. */
  function End(bytes: seq<Byte>, at: nat): (e: nat)
    requires at <= |bytes|
    ensures at <= e <= |bytes| && (forall i :: at <= i < e ==> bytes[i] >= 0x80) && (e < |bytes| ==> bytes[e] < 0x80)
    decreases |bytes| - at
  {
    if at == |bytes| || bytes[at] < 0x80 then at else End(bytes, at + 1)
  }

  datatype Number = Number(n: nat, to: nat) | Missing

  function NumberAt(bytes: seq<Byte>, at: nat): (r: Number)
    ensures r.Number? ==> at < r.to <= |bytes|
  {
    if at > |bytes| || End(bytes, at) == |bytes| then Missing
    else Number(Read(bytes[at..End(bytes, at) + 1]), End(bytes, at) + 1)
  }

  lemma NumberStands(bytes: seq<Byte>, at: nat, m: nat)
    requires StandsAt(bytes, at, Written(m))
    ensures NumberAt(bytes, at) == Number(m, at + |Written(m)|)
  {
    hide Written, Continued, Read;
    var last := EndsAt(bytes, at, m);
    assert End(bytes, at) == last;
  }

  // ----- an output

  datatype GotScript = GotScript(script: Script, to: nat) | NoScript

  /** The codec of what follows the amount. */
  datatype RestCodec = RestCodec(fits: Script -> bool, write: Script -> seq<Byte>, read: (seq<Byte>, nat) -> GotScript) {
    ghost predicate Sound() {
      && (forall bytes: seq<Byte>, at: nat, s: Script {:trigger StandsAt(bytes, at, write(s))} ::
            fits(s) && StandsAt(bytes, at, write(s)) ==> read(bytes, at) == GotScript(s, at + |write(s)|))
      && (forall bytes: seq<Byte>, at: nat {:trigger read(bytes, at)} ::
            at <= |bytes| && read(bytes, at).GotScript? ==> at <= read(bytes, at).to <= |bytes|)
    }
  }

  function WriteOut(rest: RestCodec, o: TxOut): seq<Byte> {
    Written(Word(Compressed(if o.value < 0 then 0 else o.value))) + rest.write(o.script)
  }

  function ReadOut(rest: RestCodec, bytes: seq<Byte>, at: nat): Got {
    match NumberAt(bytes, at)
    case Missing => Failed
    case Number(n, to) =>
      match rest.read(bytes, to)
      case NoScript => Failed
      case GotScript(s, to') => Got(TxOut(Word(Decompressed(Word(n))), s), to')
  }

  predicate InRange(rest: RestCodec, o: TxOut) {
    0 <= o.value <= MAX_MONEY && rest.fits(o.script)
  }

  /** Outputs as they are stored. */
  function Codec(rest: RestCodec): OutCodec {
    OutCodec(o => InRange(rest, o), o => WriteOut(rest, o), (bytes: seq<Byte>, at: nat) => ReadOut(rest, bytes, at))
  }

  /** Every valid amount is its own code's amount, in 64 bits too. */
  lemma AmountBack(v: nat)
    requires v <= MAX_MONEY
    ensures Word(Compressed(v)) == Compressed(v) && Word(Decompressed(Word(Compressed(v)))) == v
  {
    hide Strip, Packed, Unpacked, Decompressed;
    if v > 0 { CodeBound(v, 0); }
    WordFits(Compressed(v));
    WordFits(v);
    Bijection(v);
  }

  /** What is written for an output is read back, whatever follows. */
  lemma OutBack(rest: RestCodec, bytes: seq<Byte>, at: nat, o: TxOut)
    requires rest.Sound() && InRange(rest, o) && StandsAt(bytes, at, WriteOut(rest, o))
    ensures ReadOut(rest, bytes, at) == Got(o, at + |WriteOut(rest, o)|)
  {
    hide Written, Compressed, Decompressed, Word;
    var code, script := Written(Word(Compressed(o.value))), rest.write(o.script);
    AmountBack(o.value);
    StandsParts(bytes, at, code, script);
    NumberStands(bytes, at, Word(Compressed(o.value)));
    WordTwice(Compressed(o.value));
  }

  lemma WordTwice(x: nat)
    ensures Word(Word(x)) == Word(x)
  {
  }

  lemma CodecIsSound(rest: RestCodec)
    requires rest.Sound()
    ensures Codec(rest).Sound()
  {
    hide WriteOut, ReadOut, InRange, StandsAt;
    var codec := Codec(rest);
    forall bytes: seq<Byte>, at: nat, o: TxOut | codec.fits(o) && StandsAt(bytes, at, codec.write(o))
      ensures codec.read(bytes, at) == Got(o, at + |codec.write(o)|)
    {
      OutBack(rest, bytes, at, o);
    }
    forall bytes: seq<Byte>, at: nat | at <= |bytes| && codec.read(bytes, at).Got? ensures at <= codec.read(bytes, at).to <= |bytes| {
      ReadOutStays(rest, bytes, at);
    }
  }

  lemma ReadOutStays(rest: RestCodec, bytes: seq<Byte>, at: nat)
    requires rest.Sound() && at <= |bytes| && ReadOut(rest, bytes, at).Got?
    ensures at <= ReadOut(rest, bytes, at).to <= |bytes|
  {
  }

  /** From an entry of the coins database to its bytes and back: amounts, numbers, mask and outputs together. */
  method StoreAndLoadCoins(rest: RestCodec, c: CCoins, more: seq<Byte>) returns (coins: CCoins, to: nat)
    requires rest.Sound() && StorableFully(c)
    requires forall i :: 0 <= i < |c.vout| && !c.vout[i].IsNull() ==> InRange(rest, c.vout[i])
    ensures coins == c && to == |Stored(Codec(rest), c)|
  {
    hide Stored, OutCodec.Sound, InRange;
    CodecIsSound(rest);
    coins, to := StoreAndLoad(Codec(rest), c, more);
  }
}
