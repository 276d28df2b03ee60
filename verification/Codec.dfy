/** The canonical encoding of transactions and blocks: internal/codec/canonical.go. */
module Codec {
  import opened Bytes
  import opened Options
  import opened ChainTypes
  import BigEndian

  const MAX_BLOCK_BYTES := 2097152
  const MAX_STRING := 65535

  // ----- Encodings as functions

  function PutString(s: str): str {
    BigEndian.Encode(|s|, 2) + s
  }

  function PutStrings(ss: seq<str>): str {
    if ss == [] then [] else PutString(ss[0]) + PutStrings(ss[1..])
  }

  /** Words wider than 64 bits would lose their upper bytes, as in Go's conversion to `uint64`. */
  function PutWords(ns: seq<nat>): str {
    if ns == [] then [] else BigEndian.Encode(ns[0], 8) + PutWords(ns[1..])
  }

  predicate Short(ss: seq<str>) {
    forall i :: 0 <= i < |ss| ==> |ss[i]| <= MAX_STRING
  }

  function TxTexts(t: Tx): seq<str> {
    [t.id, t.from, t.to, t.key, t.value, t.signature]
  }

  function TxWords(t: Tx): seq<u64> {
    [t.nonce, t.fee, t.gas, ToUnsigned(t.expiresAt), t.size]
  }

  function TxEncoding(t: Tx): str {
    PutStrings(TxTexts(t)) + PutWords(TxWords(t))
  }

  function TxFrames(txs: seq<Tx>): str {
    if txs == [] then []
    else BigEndian.Encode(|TxEncoding(txs[0])|, 4) + TxEncoding(txs[0]) + TxFrames(txs[1..])
  }

  function BlockTexts(b: Block): seq<str> {
    [b.hash, b.header.prevHash, b.header.stateRoot, b.header.txRoot, b.header.proposer]
  }

  function BlockWords(b: Block): seq<nat> {
    [b.header.height, b.header.view, ToUnsigned(b.header.timestamp), b.header.version, |b.transactions|]
  }

  function BlockEncoding(b: Block): str {
    PutStrings(BlockTexts(b)) + PutWords(BlockWords(b)) + TxFrames(b.transactions)
  }

  predicate TxEncodable(t: Tx) {
    Short(TxTexts(t))
  }

  predicate BlockEncodable(b: Block) {
    Short(BlockTexts(b)) && forall i :: 0 <= i < |b.transactions| ==> TxEncodable(b.transactions[i])
  }

  // ----- Parsers as functions

  function GetString(d: str): Option<(str, str)> {
    if |d| < 2 then None
    else
      var n := BigEndian.Decode(d[..2]);
      if n > |d| - 2 then None else Some((d[2..2 + n], d[2 + n..]))
  }

  function GetStrings(d: str, count: nat): (r: Option<(seq<str>, str)>)
    ensures r.Some? ==> |r.value.0| == count
  {
    if count == 0 then Some(([], d))
    else
      var first := GetString(d);
      if first.None? then None
      else
        var rest := GetStrings(first.value.1, count - 1);
        if rest.None? then None else Some(([first.value.0] + rest.value.0, rest.value.1))
  }

  function GetWord(d: str): Option<(u64, str)> {
    if |d| < 8 then None
    else
      BigEndian.Widths();
      BigEndian.DecodeBound(d[..8]);
      Some((BigEndian.Decode(d[..8]), d[8..]))
  }

  function GetWords(d: str, count: nat): (r: Option<(seq<u64>, str)>)
    ensures r.Some? ==> |r.value.0| == count
  {
    if count == 0 then Some(([], d))
    else
      var first := GetWord(d);
      if first.None? then None
      else
        var rest := GetWords(first.value.1, count - 1);
        if rest.None? then None else Some(([first.value.0] + rest.value.0, rest.value.1))
  }

  function MakeTx(ss: seq<str>, ns: seq<u64>): Tx
    requires |ss| == 6 && |ns| == 5
  {
    Tx(ss[0], ss[1], ss[2], ns[0], ns[1], ns[2], ss[3], ss[4], ToSigned(ns[3]), ns[4] % TWO_TO_32, ss[5])
  }

  /** The six strings, the five words and what follows them. */
  function GetFields(d: str): (r: Option<(seq<str>, seq<u64>, str)>)
    ensures r.Some? ==> |r.value.0| == 6 && |r.value.1| == 5
  {
    var texts := GetStrings(d, 6);
    if texts.None? then None
    else
      var words := GetWords(texts.value.1, 5);
      if words.None? then None else Some((texts.value.0, words.value.0, words.value.1))
  }

  function ParseTx(d: str): Option<Tx> {
    if |d| > MAX_BLOCK_BYTES then None
    else
      var fields := GetFields(d);
      if fields.None? then None else Some(MakeTx(fields.value.0, fields.value.1))
  }

  // ----- The layout, byte by byte

  /** A string after its length in two bytes, the higher one first. */
  function Text(s: str): str {
    [|s| / 0x100 % 256, |s| % 256] + s
  }

  /** Eight bytes, the highest first. */
  function Word(n: nat): str {
    [n / 0x100_0000_0000_0000 % 256, n / 0x1_0000_0000_0000 % 256, n / 0x100_0000_0000 % 256, n / 0x1_0000_0000 % 256,
     n / 0x100_0000 % 256, n / 0x1_0000 % 256, n / 0x100 % 256, n % 256]
  }

  lemma {:induction false} TextLayout(s: str)
    ensures PutString(s) == Text(s)
  {
    BigEndian.TwoBytes(|s|);
  }

  lemma {:induction false} WordLayout(n: nat)
    ensures BigEndian.Encode(n, 8) == Word(n)
  {
    BigEndian.EightBytes(n);
  }

  lemma {:induction false} FiveWordsLayout(a: nat, b: nat, c: nat, d: nat, e: nat)
    ensures PutWords([a, b, c, d, e]) == Word(a) + Word(b) + Word(c) + Word(d) + Word(e)
  {
    WordLayout(a);
    WordLayout(b);
    WordLayout(c);
    WordLayout(d);
    WordLayout(e);
    assert [a, b, c, d, e][1..] == [b, c, d, e] && [b, c, d, e][1..] == [c, d, e];
    assert [c, d, e][1..] == [d, e] && [d, e][1..] == [e] && [e][1..] == [];
    assert PutWords([e]) == Word(e);
    assert PutWords([d, e]) == Word(d) + Word(e);
    assert PutWords([c, d, e]) == Word(c) + (Word(d) + Word(e));
    assert PutWords([b, c, d, e]) == Word(b) + (Word(c) + (Word(d) + Word(e)));
  }

  lemma {:induction false} FiveTextsLayout(a: str, b: str, c: str, d: str, e: str)
    ensures PutStrings([a, b, c, d, e]) == Text(a) + Text(b) + Text(c) + Text(d) + Text(e)
  {
    TextLayout(a);
    TextLayout(b);
    TextLayout(c);
    TextLayout(d);
    TextLayout(e);
    assert [a, b, c, d, e][1..] == [b, c, d, e] && [b, c, d, e][1..] == [c, d, e];
    assert [c, d, e][1..] == [d, e] && [d, e][1..] == [e] && [e][1..] == [];
    assert PutStrings([e]) == Text(e);
    assert PutStrings([d, e]) == Text(d) + Text(e);
    assert PutStrings([c, d, e]) == Text(c) + (Text(d) + Text(e));
    assert PutStrings([b, c, d, e]) == Text(b) + (Text(c) + (Text(d) + Text(e)));
  }

  /** Six strings and five words, in this order; the expiry in two's complement. */
  lemma {:induction false} TxLayout(t: Tx)
    ensures TxEncoding(t) ==
            Text(t.id) + (Text(t.from) + Text(t.to) + Text(t.key) + Text(t.value) + Text(t.signature)) +
            (Word(t.nonce) + Word(t.fee) + Word(t.gas) +
             Word(if t.expiresAt < 0 then t.expiresAt + 0x1_0000_0000_0000_0000 else t.expiresAt) + Word(t.size))
  {
    TextLayout(t.id);
    FiveTextsLayout(t.from, t.to, t.key, t.value, t.signature);
    assert TxTexts(t)[1..] == [t.from, t.to, t.key, t.value, t.signature];
    FiveWordsLayout(t.nonce, t.fee, t.gas, ToUnsigned(t.expiresAt), t.size);
  }

  /** The transactions of a block, each after its length in four bytes. */
  lemma {:induction false} TxFramesLayout(txs: seq<Tx>, t: Tx)
    ensures TxFrames([]) == []
    ensures var n := |TxEncoding(t)|;
      TxFrames([t] + txs) ==
      [n / 0x100_0000 % 256, n / 0x1_0000 % 256, n / 0x100 % 256, n % 256] + TxEncoding(t) + TxFrames(txs)
  {
    BigEndian.FourBytes(|TxEncoding(t)|);
    assert ([t] + txs)[1..] == txs;
  }

  /** Five strings, five words, the transactions; the votes of the block are not encoded. */
  lemma {:induction false} BlockLayout(b: Block)
    ensures var h := b.header;
      BlockEncoding(b) ==
      Text(b.hash) + Text(h.prevHash) + Text(h.stateRoot) + Text(h.txRoot) + Text(h.proposer) +
      (Word(h.height) + Word(h.view) +
       Word(if h.timestamp < 0 then h.timestamp + 0x1_0000_0000_0000_0000 else h.timestamp) +
       Word(h.version) + Word(|b.transactions|)) +
      TxFrames(b.transactions)
  {
    var h := b.header;
    FiveTextsLayout(b.hash, h.prevHash, h.stateRoot, h.txRoot, h.proposer);
    FiveWordsLayout(h.height, h.view, ToUnsigned(h.timestamp), h.version, |b.transactions|);
  }

  // ----- Round trips

  lemma GetPutString(s: str, rest: str)
    requires |s| <= MAX_STRING
    ensures GetString(PutString(s) + rest) == Some((s, rest))
  {
    BigEndian.Widths();
    BigEndian.DecodeEncode(|s|, 2);
    var d := PutString(s) + rest;
    assert d[..2] == BigEndian.Encode(|s|, 2);
    assert d[2..2 + |s|] == s && d[2 + |s|..] == rest;
  }

  lemma ShortTail(ss: seq<str>)
    requires Short(ss) && ss != []
    ensures |ss[0]| <= MAX_STRING && Short(ss[1..])
  {
  }

  lemma {:induction false} GetPutStrings(ss: seq<str>, rest: str)
    requires Short(ss)
    ensures GetStrings(PutStrings(ss) + rest, |ss|) == Some((ss, rest))
  {
    if ss == [] {
      assert PutStrings(ss) + rest == rest;
    } else {
      ShortTail(ss);
      GetPutStrings(ss[1..], rest);
      var tail := PutStrings(ss[1..]) + rest;
      GetPutString(ss[0], tail);
      FirstOfStrings(PutString(ss[0]) + tail, |ss|);
      Regroup(PutString(ss[0]), PutStrings(ss[1..]), rest);
      assert [ss[0]] + ss[1..] == ss;
    }
  }

  lemma FirstOfStrings(d: str, count: nat)
    requires count > 0 && GetString(d).Some?
    ensures GetStrings(d, count) == Prepend([GetString(d).value.0], GetStrings(GetString(d).value.1, count - 1))
  {
  }

  lemma FirstOfWords(d: str, count: nat)
    requires count > 0 && GetWord(d).Some?
    ensures GetWords(d, count) == Prepend([GetWord(d).value.0], GetWords(GetWord(d).value.1, count - 1))
  {
  }

  lemma GetPutWord(n: u64, rest: str)
    ensures GetWord(BigEndian.Encode(n, 8) + rest) == Some((n, rest))
  {
    BigEndian.Widths();
    BigEndian.DecodeEncode(n, 8);
    var d := BigEndian.Encode(n, 8) + rest;
    assert d[..8] == BigEndian.Encode(n, 8) && d[8..] == rest;
  }

  lemma {:induction false} GetPutWords(ns: seq<u64>, rest: str)
    ensures GetWords(PutWords(ns) + rest, |ns|) == Some((ns, rest))
  {
    if ns == [] {
      assert PutWords(ns) + rest == rest;
    } else {
      GetPutWord(ns[0], PutWords(ns[1..]) + rest);
      GetPutWords(ns[1..], rest);
      assert PutWords(ns) + rest == BigEndian.Encode(ns[0], 8) + (PutWords(ns[1..]) + rest);
      assert [ns[0]] + ns[1..] == ns;
    }
  }

  lemma GetPutFields(t: Tx, rest: str)
    requires TxEncodable(t)
    ensures GetFields(TxEncoding(t) + rest) == Some((TxTexts(t), TxWords(t), rest))
  {
    GetPutStrings(TxTexts(t), PutWords(TxWords(t)) + rest);
    GetPutWords(TxWords(t), rest);
    assert TxEncoding(t) + rest == PutStrings(TxTexts(t)) + (PutWords(TxWords(t)) + rest);
  }

  lemma MakeTxOfFields(t: Tx)
    ensures MakeTx(TxTexts(t), TxWords(t)) == t
  {
  }

  /** Decoding undoes encoding, whatever bytes follow. */
  lemma TxRoundTrip(t: Tx, suffix: str)
    requires TxEncodable(t) && |TxEncoding(t)| + |suffix| <= 2 * 1024 * 1024
    ensures ParseTx(TxEncoding(t) + suffix) == Some(t)
  {
    GetPutFields(t, suffix);
    MakeTxOfFields(t);
  }

  lemma {:induction false} PutStringsLength(ss: seq<str>)
    requires Short(ss)
    ensures 2 * |ss| <= |PutStrings(ss)| <= |ss| * (MAX_STRING + 2)
  {
    if ss != [] {
      PutStringsLength(ss[1..]);
    }
  }

  lemma {:induction false} PutWordsLength(ns: seq<u64>)
    ensures |PutWords(ns)| == 8 * |ns|
  {
    if ns != [] {
      PutWordsLength(ns[1..]);
    }
  }

  /** The size check of `EncodeTx` cannot fail. */
  lemma TxEncodingLength(t: Tx)
    requires TxEncodable(t)
    ensures 52 <= |TxEncoding(t)| <= 393262
  {
    PutStringsLength(TxTexts(t));
    PutWordsLength(TxWords(t));
  }

  // ----- Which inputs are encodings

  lemma PutGetString(d: str)
    requires GetString(d).Some?
    ensures |GetString(d).value.0| <= MAX_STRING
    ensures d == PutString(GetString(d).value.0) + GetString(d).value.1
  {
    BigEndian.Widths();
    BigEndian.DecodeBound(d[..2]);
    BigEndian.EncodeDecode(d[..2]);
    var n := BigEndian.Decode(d[..2]);
    assert d == d[..2] + d[2..2 + n] + d[2 + n..];
  }

  lemma {:induction false} PutGetStrings(d: str, count: nat)
    requires GetStrings(d, count).Some?
    ensures var (ss, rest) := GetStrings(d, count).value; Short(ss) && d == PutStrings(ss) + rest
  {
    if count > 0 {
      PutGetString(d);
      var (s, middle) := GetString(d).value;
      PutGetStrings(middle, count - 1);
      var (ss, rest) := GetStrings(middle, count - 1).value;
      assert ([s] + ss)[1..] == ss;
      assert PutString(s) + (PutStrings(ss) + rest) == PutString(s) + PutStrings(ss) + rest;
    }
  }

  lemma {:induction false} PutGetWords(d: str, count: nat)
    requires GetWords(d, count).Some?
    ensures var (ns, rest) := GetWords(d, count).value; d == PutWords(ns) + rest
  {
    if count > 0 {
      BigEndian.EncodeDecode(d[..8]);
      var (n, middle) := GetWord(d).value;
      PutGetWords(middle, count - 1);
      var (ns, rest) := GetWords(middle, count - 1).value;
      assert ([n] + ns)[1..] == ns;
      assert d == BigEndian.Encode(n, 8) + middle;
      assert BigEndian.Encode(n, 8) + (PutWords(ns) + rest) == BigEndian.Encode(n, 8) + PutWords(ns) + rest;
    }
  }

  /**
    Accepted input starts with the encoding of what it decodes to exactly when the word read for the 32-bit size
    fits in 32 bits; `DecodeTx` drops its upper half otherwise.
   */
  lemma DecodedInputIsEncodingIff(d: str)
    requires ParseTx(d).Some?
    ensures TxEncodable(ParseTx(d).value)
    ensures TxEncoding(ParseTx(d).value) <= d <==> GetFields(d).value.1[4] < TWO_TO_32
  {
    var (ss, ns, rest) := GetFields(d).value;
    var t := ParseTx(d).value;
    PutGetFields(d);
    FieldsOfTx(ss, ns);
    if ns[4] < TWO_TO_32 {
      assert TxEncoding(t) == d[..|TxEncoding(t)|];
    }
    if TxEncoding(t) <= d {
      var x := d[|TxEncoding(t)|..];
      assert d == TxEncoding(t) + x;
      GetPutFields(t, x);
    }
  }

  lemma PutGetFields(d: str)
    requires GetFields(d).Some?
    ensures var (ss, ns, rest) := GetFields(d).value; Short(ss) && d == PutStrings(ss) + PutWords(ns) + rest
  {
    PutGetStrings(d, 6);
    PutGetWords(GetStrings(d, 6).value.1, 5);
    var (ss, ns, rest) := GetFields(d).value;
    Regroup(PutStrings(ss), PutWords(ns), rest);
  }

  lemma FieldsOfTx(ss: seq<str>, ns: seq<u64>)
    requires |ss| == 6 && |ns| == 5
    ensures TxTexts(MakeTx(ss, ns)) == ss
    ensures ns[4] < TWO_TO_32 ==> TxWords(MakeTx(ss, ns)) == ns
  {
  }

  lemma ParseOfFields(ss: seq<str>, ns: seq<u64>, rest: str)
    requires |ss| == 6 && Short(ss) && |ns| == 5
    requires |PutStrings(ss) + PutWords(ns) + rest| <= MAX_BLOCK_BYTES
    ensures GetFields(PutStrings(ss) + PutWords(ns) + rest) == Some((ss, ns, rest))
    ensures ParseTx(PutStrings(ss) + PutWords(ns) + rest) == Some(MakeTx(ss, ns))
  {
    GetPutStrings(ss, PutWords(ns) + rest);
    GetPutWords(ns, rest);
    assert PutStrings(ss) + PutWords(ns) + rest == PutStrings(ss) + (PutWords(ns) + rest);
  }

  /** Such input exists: any size word of 2^32 or more is accepted, and decodes as its lower half does. */
  lemma {:induction false} WideSizeWord(ss: seq<str>, ns: seq<u64>, rest: str)
    requires |ss| == 6 && Short(ss) && |ns| == 5 && ns[4] >= TWO_TO_32
    requires |PutStrings(ss) + PutWords(ns) + rest| <= MAX_BLOCK_BYTES
    ensures var d := PutStrings(ss) + PutWords(ns) + rest;
      ParseTx(d).Some? && !(TxEncoding(ParseTx(d).value) <= d)
    ensures var d := PutStrings(ss) + PutWords(ns) + rest;
      var e := PutStrings(ss) + PutWords(ns[4 := ns[4] % TWO_TO_32]) + rest;
      d != e && ParseTx(d) == ParseTx(e)
  {
    var ms := ns[4 := ns[4] % TWO_TO_32];
    PutWordsLength(ns);
    PutWordsLength(ms);
    ParseOfFields(ss, ns, rest);
    ParseOfFields(ss, ms, rest);
    SizeWordWraps(ss, ns);
    DecodedInputIsEncodingIff(PutStrings(ss) + PutWords(ns) + rest);
    assert ns[4] != ms[4];
  }

  lemma SizeWordWraps(ss: seq<str>, ns: seq<u64>)
    requires |ss| == 6 && |ns| == 5
    ensures MakeTx(ss, ns) == MakeTx(ss, ns[4 := ns[4] % TWO_TO_32])
  {
  }

  // ----- Unique readability of blocks

  lemma {:induction false} TxFramesInjective(a: seq<Tx>, b: seq<Tx>)
    requires |a| == |b|
    requires forall i :: 0 <= i < |a| ==> TxEncodable(a[i]) && TxEncodable(b[i])
    requires TxFrames(a) == TxFrames(b)
    ensures a == b
  {
    if a != [] {
      FirstTxOfFrames(a, b);
      TxFramesInjective(a[1..], b[1..]);
      assert a == [a[0]] + a[1..] && b == [b[0]] + b[1..];
    }
  }

  lemma {:induction false} FirstTxOfFrames(a: seq<Tx>, b: seq<Tx>)
    requires a != [] && b != [] && TxEncodable(a[0]) && TxEncodable(b[0])
    requires TxFrames(a) == TxFrames(b)
    ensures a[0] == b[0] && TxFrames(a[1..]) == TxFrames(b[1..])
  {
    var x, y := TxFrames(a[1..]), TxFrames(b[1..]);
    var k, l := BigEndian.Encode(|TxEncoding(a[0])|, 4), BigEndian.Encode(|TxEncoding(b[0])|, 4);
    Regroup(k, TxEncoding(a[0]), x);
    Regroup(l, TxEncoding(b[0]), y);
    SplitAtLength(k, TxEncoding(a[0]) + x, l, TxEncoding(b[0]) + y);
    GetPutFields(a[0], x);
    GetPutFields(b[0], y);
    MakeTxOfFields(a[0]);
    MakeTxOfFields(b[0]);
  }

  lemma {:induction false} TxFramesLength(txs: seq<Tx>)
    requires forall i :: 0 <= i < |txs| ==> TxEncodable(txs[i])
    ensures |TxFrames(txs)| >= 56 * |txs|
  {
    if txs != [] {
      TxEncodingLength(txs[0]);
      TxFramesLength(txs[1..]);
    }
  }

  /** A block that fits in the size limit has a transaction count that fits in its word. */
  lemma BlockCountFits(b: Block)
    requires BlockEncodable(b) && |BlockEncoding(b)| <= MAX_BLOCK_BYTES
    ensures |b.transactions| < TWO_TO_64
  {
    TxFramesLength(b.transactions);
  }

  lemma BlockParts(b: Block)
    requires BlockEncodable(b) && |BlockEncoding(b)| <= MAX_BLOCK_BYTES
    ensures |b.transactions| < TWO_TO_64
    ensures GetStrings(BlockEncoding(b), 5).Some?
    ensures GetStrings(BlockEncoding(b), 5).value.0 == BlockTexts(b)
    ensures GetWords(GetStrings(BlockEncoding(b), 5).value.1, 5) == Some((BlockWords(b), TxFrames(b.transactions)))
  {
    BlockCountFits(b);
    var words: seq<u64> := BlockWords(b);
    var rest := PutWords(BlockWords(b)) + TxFrames(b.transactions);
    assert BlockEncoding(b) == PutStrings(BlockTexts(b)) + rest;
    GetPutStrings(BlockTexts(b), rest);
    GetPutWords(words, TxFrames(b.transactions));
  }

  lemma {:induction false} SignedRoundTrip(n: i64)
    ensures ToSigned(ToUnsigned(n)) == n
  {
  }

  /** Encoded blocks can be told apart: equal bytes mean equal hash, header and transactions; votes are not encoded. */
  lemma {:induction false} BlockEncodingInjective(a: Block, b: Block)
    requires BlockEncodable(a) && BlockEncodable(b) && |BlockEncoding(a)| <= MAX_BLOCK_BYTES
    requires BlockEncoding(a) == BlockEncoding(b)
    ensures a.hash == b.hash && a.header == b.header && a.transactions == b.transactions
  {
    BlockParts(a);
    BlockParts(b);
    var f, g := BlockTexts(a), BlockTexts(b);
    assert f[0] == g[0] && f[1] == g[1] && f[2] == g[2] && f[3] == g[3] && f[4] == g[4];
    var v, w := BlockWords(a), BlockWords(b);
    assert v[0] == w[0] && v[1] == w[1] && v[2] == w[2] && v[3] == w[3] && v[4] == w[4];
    SignedRoundTrip(a.header.timestamp);
    SignedRoundTrip(b.header.timestamp);
    TxFramesInjective(a.transactions, b.transactions);
  }

  // ----- The code

  lemma {:induction false} PutStringsNext(written: str, ss: seq<str>, i: nat)
    requires i < |ss|
    ensures written + PutStrings(ss[i..]) == written + PutString(ss[i]) + PutStrings(ss[i + 1..])
  {
    assert ss[i..][1..] == ss[i + 1..];
  }

  /** `bytes.Buffer`. */
  class Buffer {
    var data: str

    constructor ()
      ensures data == []
    {
      data := [];
    }

    method Write(s: str)
      modifies this
      ensures data == old(data) + s
    {
      data := data + s;
    }

    /** Refuses, writing nothing, strings whose length does not fit in two bytes. */
    method Put(s: str) returns (ok: bool)
      modifies this
      ensures ok <==> |s| <= 0xFFFF
      ensures data == if ok then old(data) + PutString(s) else old(data)
    {
      if |s| > MAX_STRING {
        return false;
      }
      Write(BigEndian.Encode(|s|, 2));
      Write(s);
      assert data == old(data) + PutString(s);
      return true;
    }

    method PutAll(ss: seq<str>) returns (ok: bool)
      modifies this
      ensures ok <==> Short(ss)
      ensures ok ==> data == old(data) + PutStrings(ss)
    {
      for i := 0 to |ss|
        invariant Short(ss[..i]) && data + PutStrings(ss[i..]) == old(data) + PutStrings(ss)
      {
        PutStringsNext(data, ss, i);
        var put := Put(ss[i]);
        if !put {
          return false;
        }
        assert ss[..i + 1] == ss[..i] + [ss[i]];
      }
      assert ss[..|ss|] == ss;
      return true;
    }

    method PutAllWords(ns: seq<nat>)
      modifies this
      ensures data == old(data) + PutWords(ns)
    {
      for i := 0 to |ns|
        invariant data + PutWords(ns[i..]) == old(data) + PutWords(ns)
      {
        assert data + PutWords(ns[i..]) == data + BigEndian.Encode(ns[i], 8) + PutWords(ns[i + 1..]) by {
          assert ns[i..][1..] == ns[i + 1..];
        }
        Write(BigEndian.Encode(ns[i], 8));
      }
    }
  }

  method EncodeTx(t: Tx) returns (r: Option<str>)
    ensures r.Some? <==> TxEncodable(t)
    ensures r.Some? ==> r.value == TxEncoding(t) && |r.value| <= 393262
  {
    var b := new Buffer();
    var ok := b.PutAll(TxTexts(t));
    if !ok {
      return None;
    }
    b.PutAllWords(TxWords(t));
    TxEncodingLength(t);
    if |b.data| > MAX_BLOCK_BYTES {
      return None;
    }
    return Some(b.data);
  }

  /** `bytes.Reader`. */
  class Reader {
    const data: str
    var pos: nat

    ghost predicate Valid()
      reads this
    {
      pos <= |data|
    }

    function Rest(): str
      reads this
      requires Valid()
    {
      data[pos..]
    }

    constructor (data: str)
      ensures Valid() && Rest() == data
    {
      this.data, pos := data, 0;
    }

    method Get() returns (r: Option<str>)
      requires Valid()
      modifies this`pos
      ensures Valid()
      ensures r.Some? <==> GetString(old(Rest())).Some?
      ensures r.Some? ==> GetString(old(Rest())) == Some((r.value, Rest()))
    {
      if |data| - pos < 2 {
        return None;
      }
      var n := BigEndian.Decode(data[pos..pos + 2]);
      assert data[pos..][..2] == data[pos..pos + 2];
      pos := pos + 2;
      if n > |data| - pos {
        return None;
      }
      var s := data[pos..pos + n];
      pos := pos + n;
      assert old(Rest())[2..2 + n] == s;
      return Some(s);
    }

    method GetNumber() returns (r: Option<u64>)
      requires Valid()
      modifies this`pos
      ensures Valid()
      ensures r.Some? <==> GetWord(old(Rest())).Some?
      ensures r.Some? ==> GetWord(old(Rest())) == Some((r.value, Rest()))
    {
      if |data| - pos < 8 {
        return None;
      }
      BigEndian.Widths();
      BigEndian.DecodeBound(data[pos..pos + 8]);
      var n := BigEndian.Decode(data[pos..pos + 8]);
      assert data[pos..][..8] == data[pos..pos + 8];
      pos := pos + 8;
      return Some(n);
    }

    method GetAll(count: nat) returns (r: Option<seq<str>>)
      requires Valid()
      modifies this`pos
      ensures Valid()
      ensures r.Some? <==> GetStrings(old(Rest()), count).Some?
      ensures r.Some? ==> GetStrings(old(Rest()), count) == Some((r.value, Rest()))
    {
      var vals: seq<str> := [];
      var i := 0;
      ghost var d := Rest();
      PrependNothing(GetStrings(d, count));
      while i < count
        invariant Valid() && |vals| == i <= count
        invariant GetStrings(d, count) == Prepend(vals, GetStrings(Rest(), count - i))
      {
        ghost var before := Rest();
        var s := Get();
        if s.None? {
          return None;
        }
        ReadString(vals, before, count - i);
        vals := vals + [s.value];
        i := i + 1;
      }
      assert vals + [] == vals;
      return Some(vals);
    }

    method GetAllNumbers(count: nat) returns (r: Option<seq<u64>>)
      requires Valid()
      modifies this`pos
      ensures Valid()
      ensures r.Some? <==> GetWords(old(Rest()), count).Some?
      ensures r.Some? ==> GetWords(old(Rest()), count) == Some((r.value, Rest()))
    {
      var nums: seq<u64> := [];
      var i := 0;
      ghost var d := Rest();
      PrependNothing(GetWords(d, count));
      while i < count
        invariant Valid() && |nums| == i <= count
        invariant GetWords(d, count) == Prepend(nums, GetWords(Rest(), count - i))
      {
        ghost var before := Rest();
        var n := GetNumber();
        if n.None? {
          return None;
        }
        ReadWord(nums, before, count - i);
        nums := nums + [n.value];
        i := i + 1;
      }
      assert nums + [] == nums;
      return Some(nums);
    }
  }

  function Prepend<T>(xs: seq<T>, r: Option<(seq<T>, str)>): Option<(seq<T>, str)> {
    if r.None? then None else Some((xs + r.value.0, r.value.1))
  }

  lemma {:induction false} PrependNothing<T>(r: Option<(seq<T>, str)>)
    ensures Prepend([], r) == r
  {
    if r.Some? {
      assert [] + r.value.0 == r.value.0;
    }
  }

  lemma {:induction false} PrependTwice<T>(xs: seq<T>, ys: seq<T>, r: Option<(seq<T>, str)>)
    ensures Prepend(xs, Prepend(ys, r)) == Prepend(xs + ys, r)
  {
    if r.Some? {
      assert xs + (ys + r.value.0) == xs + ys + r.value.0;
    }
  }

  lemma {:induction false} ReadString(vals: seq<str>, d: str, count: nat)
    requires count > 0 && GetString(d).Some?
    ensures var (s, rest) := GetString(d).value;
      Prepend(vals, GetStrings(d, count)) == Prepend(vals + [s], GetStrings(rest, count - 1))
  {
    FirstOfStrings(d, count);
    PrependTwice(vals, [GetString(d).value.0], GetStrings(GetString(d).value.1, count - 1));
  }

  lemma {:induction false} ReadWord(nums: seq<u64>, d: str, count: nat)
    requires count > 0 && GetWord(d).Some?
    ensures var (n, rest) := GetWord(d).value;
      Prepend(nums, GetWords(d, count)) == Prepend(nums + [n], GetWords(rest, count - 1))
  {
    FirstOfWords(d, count);
    PrependTwice(nums, [GetWord(d).value.0], GetWords(GetWord(d).value.1, count - 1));
  }

  method DecodeTx(data: str) returns (r: Option<Tx>)
    ensures r == ParseTx(data)
    ensures |data| > 2 * 1024 * 1024 ==> r.None?
  {
    if |data| > MAX_BLOCK_BYTES {
      return None;
    }
    var reader := new Reader(data);
    var vals := reader.GetAll(6);
    if vals.None? {
      return None;
    }
    var nums := reader.GetAllNumbers(5);
    if nums.None? {
      return None;
    }
    return Some(MakeTx(vals.value, nums.value));
  }

  /** One round of the transaction loop of `EncodeBlock`. */
  method PutTx(out: Buffer, t: Tx) returns (ok: bool)
    modifies out
    ensures ok <==> TxEncodable(t)
    ensures ok ==> out.data == old(out.data) + (BigEndian.Encode(|TxEncoding(t)|, 4) + TxEncoding(t))
  {
    var d := EncodeTx(t);
    if d.None? {
      return false;
    }
    out.Write(BigEndian.Encode(|d.value|, 4));
    out.Write(d.value);
    return true;
  }

  lemma {:induction false} FirstOfFrames(written: str, txs: seq<Tx>, i: nat)
    requires i < |txs|
    ensures written + TxFrames(txs[i..]) ==
            written + (BigEndian.Encode(|TxEncoding(txs[i])|, 4) + TxEncoding(txs[i])) + TxFrames(txs[i + 1..])
  {
    assert txs[i..][1..] == txs[i + 1..];
  }

  method EncodeBlock(b: Block) returns (r: Option<str>)
    ensures r.Some? <==> BlockEncodable(b) && |BlockEncoding(b)| <= 2 * 1024 * 1024
    ensures r.Some? ==> r.value == BlockEncoding(b)
  {
    var out := new Buffer();
    var ok := out.PutAll(BlockTexts(b));
    if !ok {
      return None;
    }
    out.PutAllWords(BlockWords(b));
    var txs := b.transactions;
    for i := 0 to |txs|
      invariant forall j :: 0 <= j < i ==> TxEncodable(txs[j])
      invariant out.data + TxFrames(txs[i..]) == BlockEncoding(b)
    {
      FirstOfFrames(out.data, txs, i);
      ok := PutTx(out, txs[i]);
      if !ok {
        return None;
      }
    }
    if |out.data| > MAX_BLOCK_BYTES {
      return None;
    }
    return Some(out.data);
  }
}
