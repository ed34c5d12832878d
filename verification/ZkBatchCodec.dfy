/** The byte form of a rollup batch: printing and parsing undo each other in both directions. */
module ZkBatchCodec {
  import opened Bytes
  import opened Ordered

  const TWO_32: nat := 0x1_0000_0000

  /** Bytes of a length field. */
  const COUNT_BYTES: nat := 4

  type uint32 = x: int | 0 <= x < 0x1_0000_0000

  datatype ZkProof = ZkProof(data: Bytes, inputs: Bytes, kind: uint32)

  datatype Batch = Batch(
    id: uint64, timestamp: uint64, before: Digest, after: Digest, txs: seq<Digest>, proof: ZkProof, signature: Bytes)

  /** A parsed value and what is left behind it. */
  datatype Parsed<+T> = Failed | Parsed(value: T, rest: Bytes)

  // ---------------------------------------------------------------- printing

  function Number(n: nat, len: nat): Bytes {
    LittleEndian(n, len)
  }

  /** The length in four bytes, cut to them, then the bytes. */
  function Block(s: Bytes): Bytes {
    Number(|s| % TWO_32, COUNT_BYTES) + s
  }

  function Digests(txs: seq<Digest>): Bytes {
    if txs == [] then [] else txs[0] + Digests(txs[1..])
  }

  function Header(b: Batch): Bytes {
    Number(b.id, 8) + Number(b.timestamp, 8) + b.before + b.after
  }

  function Transactions(txs: seq<Digest>): Bytes {
    Number(|txs| % TWO_32, COUNT_BYTES) + Digests(txs)
  }

  function ProofBytes(p: ZkProof): Bytes {
    Block(p.data) + Block(p.inputs) + Number(p.kind, COUNT_BYTES)
  }

  function Compress(b: Batch): Bytes {
    Header(b) + (Transactions(b.txs) + (ProofBytes(b.proof) + Block(b.signature)))
  }

  /** Every length fits its four-byte field. */
  predicate Fits(b: Batch) {
    |b.txs| < TWO_32 && |b.proof.data| < TWO_32 && |b.proof.inputs| < TWO_32 && |b.signature| < TWO_32
  }

  // ---------------------------------------------------------------- parsing

  function ParseNumber(s: Bytes, len: nat): Parsed<nat> {
    if |s| < len then Failed else Parsed(FromLittleEndian(s[..len]), s[len..])
  }

  function ParseBlock(s: Bytes): Parsed<Bytes> {
    match ParseNumber(s, COUNT_BYTES)
    case Failed => Failed
    case Parsed(n, rest) => if |rest| < n then Failed else Parsed(rest[..n], rest[n..])
  }

  function ParseDigests(s: Bytes, count: nat): Parsed<seq<Digest>> {
    if count == 0 then Parsed([], s)
    else if |s| < 32 then Failed
    else
      var d: Digest := s[..32];
      Before([d], ParseDigests(s[32..], count - 1))
  }

  function Before(done: seq<Digest>, r: Parsed<seq<Digest>>): Parsed<seq<Digest>> {
    match r
    case Failed => Failed
    case Parsed(more, rest) => Parsed(done + more, rest)
  }

  function ParseTransactions(s: Bytes): Parsed<seq<Digest>> {
    match ParseNumber(s, COUNT_BYTES)
    case Failed => Failed
    case Parsed(count, rest) => ParseDigests(rest, count)
  }

  function ParseProof(s: Bytes): Parsed<ZkProof> {
    match ParseBlock(s)
    case Failed => Failed
    case Parsed(data, s1) =>
      match ParseBlock(s1)
      case Failed => Failed
      case Parsed(inputs, s2) =>
        match ParseNumber(s2, COUNT_BYTES)
        case Failed => Failed
        case Parsed(kind, s3) =>
          assert kind < TWO_32 by { NumberBound(s2, COUNT_BYTES); }
          Parsed(ZkProof(data, inputs, kind), s3)
  }

  function Decompress(s: Bytes): Option<Batch> {
    if |s| < 80 then None
    else
      HeaderNumbers(s);
      match ParseTransactions(s[80..])
      case Failed => None
      case Parsed(txs, s1) =>
        match ParseProof(s1)
        case Failed => None
        case Parsed(proof, s2) =>
          match ParseBlock(s2)
          case Failed => None
          case Parsed(signature, s3) =>
            if s3 != [] then None
            else
              Some(Batch(FromLittleEndian(s[..8]), FromLittleEndian(s[8..16]), s[16..48], s[48..80], txs, proof,
                         signature))
  }

  lemma {:induction false} LittleEndianBound(s: Bytes)
    ensures FromLittleEndian(s) < Pow256(|s|)
  {
    if s != [] {
      LittleEndianBound(s[1..]);
    }
  }

  lemma NumberBound(s: Bytes, len: nat)
    requires len <= |s|
    ensures FromLittleEndian(s[..len]) < Pow256(len)
    ensures len == COUNT_BYTES ==> FromLittleEndian(s[..len]) < TWO_32
    ensures len == 8 ==> FromLittleEndian(s[..len]) < TWO_64
  {
    LittleEndianBound(s[..len]);
    assert Pow256(4) == TWO_32 && Pow256(8) == TWO_64;
  }

  lemma HeaderNumbers(s: Bytes)
    requires |s| >= 80
    ensures FromLittleEndian(s[..8]) < TWO_64 && FromLittleEndian(s[8..16]) < TWO_64
  {
    NumberBound(s, 8);
    NumberBound(s[8..], 8);
    assert s[8..][..8] == s[8..16];
  }

  // ---------------------------------------------------------------- printed, then parsed

  lemma NumberReadBack(n: nat, len: nat, rest: Bytes)
    requires n < Pow256(len)
    ensures ParseNumber(Number(n, len) + rest, len) == Parsed(n, rest)
  {
    var s := Number(n, len) + rest;
    assert s[..len] == Number(n, len) && s[len..] == rest;
    LittleEndianReadBack(n, len, Pow256(len));
  }

  lemma FourBytes(n: nat)
    requires n < TWO_32
    ensures n < Pow256(COUNT_BYTES)
  {
  }

  lemma CountReadBack(n: nat, rest: Bytes)
    requires n < TWO_32
    ensures ParseNumber(Number(n % TWO_32, COUNT_BYTES) + rest, COUNT_BYTES) == Parsed(n, rest)
  {
    FourBytes(n);
    NumberReadBack(n, COUNT_BYTES, rest);
  }

  lemma BlockReadBack(s: Bytes, rest: Bytes)
    requires |s| < TWO_32
    ensures ParseBlock(Block(s) + rest) == Parsed(s, rest)
  {
    Joined(Number(|s| % TWO_32, COUNT_BYTES), s, rest);
    CountReadBack(|s|, s + rest);
    assert (s + rest)[..|s|] == s && (s + rest)[|s|..] == rest;
  }

  lemma {:induction false} DigestsReadBack(txs: seq<Digest>, rest: Bytes)
    ensures ParseDigests(Digests(txs) + rest, |txs|) == Parsed(txs, rest)
    decreases |txs|
  {
    var s := Digests(txs) + rest;
    if txs == [] {
      assert s == rest;
    } else {
      assert s[..32] == txs[0] && s[32..] == Digests(txs[1..]) + rest;
      DigestsReadBack(txs[1..], rest);
      assert [txs[0]] + txs[1..] == txs;
    }
  }

  lemma TransactionsReadBack(txs: seq<Digest>, rest: Bytes)
    requires |txs| < TWO_32
    ensures ParseTransactions(Transactions(txs) + rest) == Parsed(txs, rest)
  {
    Joined(Number(|txs| % TWO_32, COUNT_BYTES), Digests(txs), rest);
    CountReadBack(|txs|, Digests(txs) + rest);
    DigestsReadBack(txs, rest);
  }

  lemma FourJoined(a: Bytes, b: Bytes, c: Bytes, d: Bytes)
    ensures a + b + c + d == a + (b + (c + d))
  {
  }

  lemma ProofReadBack(p: ZkProof, rest: Bytes)
    requires |p.data| < TWO_32 && |p.inputs| < TWO_32
    ensures ParseProof(ProofBytes(p) + rest) == Parsed(p, rest)
  {
    var s2 := Number(p.kind, COUNT_BYTES) + rest;
    var s1 := Block(p.inputs) + s2;
    FourJoined(Block(p.data), Block(p.inputs), Number(p.kind, COUNT_BYTES), rest);
    BlockReadBack(p.data, s1);
    BlockReadBack(p.inputs, s2);
    FourBytes(p.kind);
    NumberReadBack(p.kind, COUNT_BYTES, rest);
  }

  lemma HeaderReadBack(b: Batch, rest: Bytes)
    ensures var s := Header(b) + rest;
            && |s| >= 80 && s[80..] == rest && s[16..48] == b.before && s[48..80] == b.after
            && FromLittleEndian(s[..8]) == b.id && FromLittleEndian(s[8..16]) == b.timestamp
  {
    HeaderParts(Number(b.id, 8), Number(b.timestamp, 8), b.before, b.after, rest);
    WideReadBack(b.id);
    WideReadBack(b.timestamp);
  }

  lemma HeaderParts(id: Bytes, timestamp: Bytes, before: Digest, after: Digest, rest: Bytes)
    requires |id| == 8 && |timestamp| == 8
    ensures var s := id + timestamp + before + after + rest;
            && |s| >= 80 && s[..8] == id && s[8..16] == timestamp && s[16..48] == before && s[48..80] == after
            && s[80..] == rest
  {
  }

  lemma WideReadBack(n: uint64)
    ensures FromLittleEndian(Number(n, 8)) == n
  {
    assert Pow256(8) == TWO_64;
    LittleEndianReadBack(n, 8, Pow256(8));
  }

  lemma PrintedThenParsed(b: Batch)
    requires Fits(b)
    ensures Decompress(Compress(b)) == Some(b)
  {
    var tail := ProofBytes(b.proof) + Block(b.signature);
    HeaderReadBack(b, Transactions(b.txs) + tail);
    TransactionsReadBack(b.txs, tail);
    ProofReadBack(b.proof, Block(b.signature));
    assert Block(b.signature) + [] == Block(b.signature);
    BlockReadBack(b.signature, []);
  }

  // ---------------------------------------------------------------- parsed, then printed

  lemma {:induction false} NumberPrintsBack(s: Bytes)
    ensures LittleEndian(FromLittleEndian(s), |s|) == s
  {
    if s != [] {
      NumberPrintsBack(s[1..]);
      assert FromLittleEndian(s) % 256 == s[0] && FromLittleEndian(s) / 256 == FromLittleEndian(s[1..]);
    }
  }

  lemma NumberIsPrefix(s: Bytes, len: nat)
    requires len <= |s|
    ensures s == Number(FromLittleEndian(s[..len]), len) + s[len..]
  {
    NumberPrintsBack(s[..len]);
  }

  lemma BlockIsPrefix(s: Bytes)
    requires ParseBlock(s).Parsed?
    ensures var p := ParseBlock(s); |p.value| < TWO_32 && s == Block(p.value) + p.rest
  {
    NumberIsPrefix(s, COUNT_BYTES);
    NumberBound(s, COUNT_BYTES);
    Regrouped(s, COUNT_BYTES, FromLittleEndian(s[..COUNT_BYTES]));
  }

  lemma Regrouped(s: Bytes, k: nat, n: nat)
    requires k + n <= |s| && n < TWO_32 && s == Number(n, k) + s[k..]
    ensures s == Number(n % TWO_32, k) + s[k..][..n] + s[k..][n..]
  {
    var rest := s[k..];
    assert rest == rest[..n] + rest[n..];
    Joined(Number(n, k), rest[..n], rest[n..]);
  }

  lemma {:induction false} DigestsArePrefix(s: Bytes, count: nat)
    requires ParseDigests(s, count).Parsed?
    ensures var p := ParseDigests(s, count); |p.value| == count && s == Digests(p.value) + p.rest
    decreases count
  {
    if count > 0 {
      DigestsArePrefix(s[32..], count - 1);
      var p := ParseDigests(s, count);
      assert p.value[1..] == ParseDigests(s[32..], count - 1).value;
      assert s == s[..32] + s[32..];
    } else {
      assert s == [] + s;
    }
  }

  lemma TransactionsArePrefix(s: Bytes)
    requires ParseTransactions(s).Parsed?
    ensures var p := ParseTransactions(s); |p.value| < TWO_32 && s == Transactions(p.value) + p.rest
  {
    var count := FromLittleEndian(s[..COUNT_BYTES]);
    CountIsPrefix(s, count);
    DigestsBehind(Number(count, COUNT_BYTES), s[COUNT_BYTES..], count);
  }

  lemma CountIsPrefix(s: Bytes, count: nat)
    requires |s| >= COUNT_BYTES && count == FromLittleEndian(s[..COUNT_BYTES])
    ensures s == Number(count, COUNT_BYTES) + s[COUNT_BYTES..] && count % TWO_32 == count
  {
    NumberIsPrefix(s, COUNT_BYTES);
    NumberBound(s, COUNT_BYTES);
  }

  lemma DigestsBehind(front: Bytes, s: Bytes, count: nat)
    requires ParseDigests(s, count).Parsed?
    ensures var p := ParseDigests(s, count); |p.value| == count && front + s == front + Digests(p.value) + p.rest
  {
    DigestsArePrefix(s, count);
    var p := ParseDigests(s, count);
    Joined(front, Digests(p.value), p.rest);
  }

  lemma ProofIsPrefix(s: Bytes)
    requires ParseProof(s).Parsed?
    ensures var p := ParseProof(s);
            |p.value.data| < TWO_32 && |p.value.inputs| < TWO_32 && s == ProofBytes(p.value) + p.rest
  {
    BlockIsPrefix(s);
    var s1 := ParseBlock(s).rest;
    BlockIsPrefix(s1);
    var s2 := ParseBlock(s1).rest;
    NumberIsPrefix(s2, COUNT_BYTES);
    var p := ParseProof(s);
    FourJoined(Block(p.value.data), Block(p.value.inputs), Number(p.value.kind, COUNT_BYTES), p.rest);
  }

  lemma HeaderIsPrefix(s: Bytes, b: Batch)
    requires |s| >= 80 && b.before == s[16..48] && b.after == s[48..80]
    requires b.id == FromLittleEndian(s[..8]) && b.timestamp == FromLittleEndian(s[8..16])
    ensures s == Header(b) + s[80..]
  {
    NumberPrintsBack(s[..8]);
    NumberPrintsBack(s[8..16]);
    HeaderCut(s);
  }

  lemma HeaderCut(s: Bytes)
    requires |s| >= 80
    ensures s == s[..8] + s[8..16] + s[16..48] + s[48..80] + s[80..]
  {
  }

  lemma ParsedThenPrinted(s: Bytes)
    requires Decompress(s).Some?
    ensures Compress(Decompress(s).value) == s && Fits(Decompress(s).value)
  {
    var b := Decompress(s).value;
    HeaderIsPrefix(s, b);
    TransactionsArePrefix(s[80..]);
    var s1 := ParseTransactions(s[80..]).rest;
    ProofIsPrefix(s1);
    var s2 := ParseProof(s1).rest;
    BlockIsPrefix(s2);
    assert Block(b.signature) + [] == Block(b.signature);
  }

  /** Data decompresses to a batch exactly when it is what that batch compresses to and every length
      of the batch fits its field; so a batch has one byte form and survives it exactly when it fits. */
  lemma InverseExactly(s: Bytes, b: Batch)
    ensures Decompress(s) == Some(b) <==> Compress(b) == s && Fits(b)
  {
    if Decompress(s) == Some(b) {
      ParsedThenPrinted(s);
    }
    if Compress(b) == s && Fits(b) {
      PrintedThenParsed(b);
    }
  }

  // ---------------------------------------------------------------- the loops

  method CompressBatch(b: Batch) returns (data: Bytes)
    ensures data == Compress(b)
  {
    data := Number(b.id, 8) + Number(b.timestamp, 8) + b.before + b.after;
    data := AppendTransactions(data, b.txs);
    data := AppendTail(data, b);
    Joined(Header(b), Transactions(b.txs), ProofBytes(b.proof) + Block(b.signature));
  }

  lemma Joined(a: Bytes, b: Bytes, c: Bytes)
    ensures a + b + c == a + (b + c)
  {
  }

  method AppendTransactions(header: Bytes, txs: seq<Digest>) returns (data: Bytes)
    ensures data == header + Transactions(txs)
  {
    data := header + Number(|txs| % TWO_32, COUNT_BYTES);
    ghost var front := data;
    assert txs[0..] == txs;
    for i := 0 to |txs|
      invariant data + Digests(txs[i..]) == front + Digests(txs)
    {
      assert txs[i..][1..] == txs[i + 1..];
      Joined(data, txs[i], Digests(txs[i + 1..]));
      data := data + txs[i];
    }
    assert txs[|txs|..] == [] && data + [] == data;
    TransactionsLast(header, txs, front);
  }

  lemma TransactionsLast(header: Bytes, txs: seq<Digest>, front: Bytes)
    requires front == header + Number(|txs| % TWO_32, COUNT_BYTES)
    ensures front + Digests(txs) == header + Transactions(txs)
  {
  }

  method AppendTail(front: Bytes, b: Batch) returns (data: Bytes)
    ensures data == front + (ProofBytes(b.proof) + Block(b.signature))
  {
    data := front + Number(|b.proof.data| % TWO_32, COUNT_BYTES);
    data := data + b.proof.data;
    data := data + Number(|b.proof.inputs| % TWO_32, COUNT_BYTES);
    data := data + b.proof.inputs;
    data := data + Number(b.proof.kind, COUNT_BYTES);
    data := data + Number(|b.signature| % TWO_32, COUNT_BYTES);
    data := data + b.signature;
  }

  method ReadNumber(data: Bytes, offset: nat, len: nat) returns (ok: bool, value: nat, offset': nat)
    requires offset <= |data|
    ensures offset' <= |data|
    ensures ParseNumber(data[offset..], len) == if ok then Parsed(value, data[offset'..]) else Failed
    ensures ok ==> offset' == offset + len
  {
    if offset + len > |data| {
      return false, 0, offset;
    }
    assert data[offset..][..len] == data[offset..offset + len];
    return true, FromLittleEndian(data[offset..offset + len]), offset + len;
  }

  method ReadBlock(data: Bytes, offset: nat) returns (ok: bool, value: Bytes, offset': nat)
    requires offset <= |data|
    ensures offset' <= |data|
    ensures ParseBlock(data[offset..]) == if ok then Parsed(value, data[offset'..]) else Failed
  {
    var size: nat;
    ok, size, offset' := ReadNumber(data, offset, COUNT_BYTES);
    if !ok || offset' + size > |data| {
      return false, [], offset;
    }
    value := data[offset'..offset' + size];
    assert data[offset'..][..size] == value;
    offset' := offset' + size;
  }

  method ReadDigests(data: Bytes, offset: nat, count: nat) returns (ok: bool, txs: seq<Digest>, offset': nat)
    requires offset <= |data|
    ensures offset' <= |data|
    ensures ParseDigests(data[offset..], count) == if ok then Parsed(txs, data[offset'..]) else Failed
  {
    txs, offset' := [], offset;
    NothingBefore(ParseDigests(data[offset..], count));
    for i := 0 to count
      invariant offset' <= |data|
      invariant ParseDigests(data[offset..], count) == Before(txs, ParseDigests(data[offset'..], count - i))
    {
      if offset' + 32 > |data| {
        return false, [], offset;
      }
      var digest: Digest := data[offset'..offset' + 32];
      assert data[offset'..][..32] == digest && data[offset'..][32..] == data[offset' + 32..];
      BeforeTwice(txs, digest, ParseDigests(data[offset' + 32..], count - i - 1));
      txs := txs + [digest];
      offset' := offset' + 32;
    }
    assert txs + [] == txs;
    ok := true;
  }

  lemma NothingBefore(r: Parsed<seq<Digest>>)
    ensures Before([], r) == r
  {
    match r
    case Failed =>
    case Parsed(more, rest) => assert [] + more == more;
  }

  lemma BeforeTwice(done: seq<Digest>, d: Digest, r: Parsed<seq<Digest>>)
    ensures Before(done, Before([d], r)) == Before(done + [d], r)
  {
    match r
    case Failed =>
    case Parsed(more, rest) => assert done + ([d] + more) == done + [d] + more;
  }

  method ReadTransactions(data: Bytes, offset: nat) returns (ok: bool, txs: seq<Digest>, offset': nat)
    requires offset <= |data|
    ensures offset' <= |data|
    ensures ParseTransactions(data[offset..]) == if ok then Parsed(txs, data[offset'..]) else Failed
  {
    var count: nat;
    ok, count, offset' := ReadNumber(data, offset, COUNT_BYTES);
    if !ok {
      return false, [], offset;
    }
    ok, txs, offset' := ReadDigests(data, offset', count);
  }

  method ReadProof(data: Bytes, offset: nat) returns (ok: bool, proof: ZkProof, offset': nat)
    requires offset <= |data|
    ensures offset' <= |data|
    ensures ParseProof(data[offset..]) == if ok then Parsed(proof, data[offset'..]) else Failed
  {
    proof := ZkProof([], [], 0);
    var proofData, inputs: Bytes, kind: nat;
    ok, proofData, offset' := ReadBlock(data, offset);
    if !ok {
      return;
    }
    ok, inputs, offset' := ReadBlock(data, offset');
    if !ok {
      return;
    }
    ghost var at := offset';
    ok, kind, offset' := ReadNumber(data, offset', COUNT_BYTES);
    if !ok {
      return;
    }
    NumberBound(data[at..], COUNT_BYTES);
    proof := ZkProof(proofData, inputs, kind);
  }

  method DecompressBatch(data: Bytes) returns (r: Option<Batch>)
    ensures r == Decompress(data)
  {
    var ok: bool, id: nat, timestamp: nat, offset: nat;
    assert data[0..] == data;
    ok, id, offset := ReadNumber(data, 0, 8);
    if !ok {
      return None;
    }
    ok, timestamp, offset := ReadNumber(data, offset, 8);
    if !ok || offset + 64 > |data| {
      return None;
    }
    assert data[8..][..8] == data[8..16];
    HeaderNumbers(data);
    var before: Digest, after: Digest := data[16..48], data[48..80];
    r := DecompressTail(data, id, timestamp, before, after);
  }

  method DecompressTail(data: Bytes, id: uint64, timestamp: uint64, before: Digest, after: Digest)
    returns (r: Option<Batch>)
    requires |data| >= 80 && before == data[16..48] && after == data[48..80]
    requires id == FromLittleEndian(data[..8]) && timestamp == FromLittleEndian(data[8..16])
    ensures r == Decompress(data)
  {
    var ok, txs, offset := ReadTransactions(data, 80);
    if !ok {
      return None;
    }
    var proof: ZkProof, signature: Bytes;
    ok, proof, offset := ReadProof(data, offset);
    if !ok {
      return None;
    }
    ok, signature, offset := ReadBlock(data, offset);
    if !ok || offset != |data| {
      return None;
    }
    return Some(Batch(id, timestamp, before, after, txs, proof, signature));
  }
}
