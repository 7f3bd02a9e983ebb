/**
 The on-disk form of a storage volume's tree: a header and one record per node,
 with little-endian lengths of 16 and 32 bits.
 */
module StorageCodec {
  import opened Machine
  import opened Paths

  datatype FsNodeKind = FileNode | DirectoryNode

  datatype FsNode = FsNode(path: Bytes, kind: FsNodeKind, data: Bytes)

  const MAGIC: Bytes := [83, 65, 70, 65, 84, 51, 50, 0]    // "SAFAT32" and a NUL byte
  const VERSION: nat := 1
  const HEADER: nat := 16

  const U16_COUNT: nat := 0x1_0000
  const U32_COUNT: nat := 0x1_0000_0000

  // ---------------------------------------------------------------- numbers

  /** `to_le_bytes` of the value cast to 16 bits; larger values lose their high bits. */
  function Le16(n: nat): (b: Bytes)
    ensures |b| == 2
  {
    [n % 256, n / 256 % 256]
  }

  function Le32(n: nat): (b: Bytes)
    ensures |b| == 4
  {
    [n % 256, n / 256 % 256, n / 65536 % 256, n / 16777216 % 256]
  }

  function Word16(a: nat, b: nat): nat { a + 256 * b }

  function Word32(a: nat, b: nat, c: nat, d: nat): nat { a + 256 * b + 65536 * c + 16777216 * d }

  function ReadLe16(b: Bytes, at: nat): Option<nat> {
    if at + 2 <= |b| then Some(Word16(b[at], b[at + 1])) else None
  }

  function ReadLe32(b: Bytes, at: nat): Option<nat> {
    if at + 4 <= |b| then Some(Word32(b[at], b[at + 1], b[at + 2], b[at + 3])) else None
  }

  lemma Le16RoundTrip(n: nat, b: Bytes, at: nat)
    requires at + 2 <= |b| && b[at..at + 2] == Le16(n)
    ensures ReadLe16(b, at) == Some(n % U16_COUNT)
  {
    var s := b[at..at + 2];
    assert b[at] == s[0] && b[at + 1] == s[1];
    Bytes16(n);
  }

  lemma Le32RoundTrip(n: nat, b: Bytes, at: nat)
    requires at + 4 <= |b| && b[at..at + 4] == Le32(n)
    ensures ReadLe32(b, at) == Some(n % U32_COUNT)
  {
    var s := b[at..at + 4];
    assert b[at] == s[0] && b[at + 1] == s[1] && b[at + 2] == s[2] && b[at + 3] == s[3];
    Bytes32(n);
  }

  lemma Bytes16(n: nat)
    ensures Word16(n % 256, n / 256 % 256) == n % U16_COUNT
  {
    var q := n / 256;
    Remainder16(n, q / 256, Word16(n % 256, q % 256));
  }

  lemma Bytes32(n: nat)
    ensures Word32(n % 256, n / 256 % 256, n / 65536 % 256, n / 16777216 % 256) == n % U32_COUNT
  {
    var q1 := n / 256;
    var q2 := q1 / 256;
    var q3 := q2 / 256;
    Quotients(n);
    Remainder32(n, q3 / 256, Word32(n % 256, q1 % 256, q2 % 256, q3 % 256));
  }

  lemma Quotients(n: nat)
    ensures n / 65536 == n / 256 / 256 && n / 16777216 == n / 256 / 256 / 256
  {
  }

  lemma Remainder16(n: nat, q: nat, r: nat)
    requires n == U16_COUNT * q + r && r < U16_COUNT
    ensures r == n % U16_COUNT
  {
  }

  lemma Remainder32(n: nat, q: nat, r: nat)
    requires n == U32_COUNT * q + r && r < U32_COUNT
    ensures r == n % U32_COUNT
  {
  }

  // ---------------------------------------------------------------- text

  predicate Continues(b: Bytes, at: nat, lo: nat, hi: nat) { at < |b| && lo <= b[at] <= hi }

  /** Length of the well-formed UTF-8 sequence at the front (table 3-7 of the Unicode Standard), or 0. */
  function Utf8Lead(b: Bytes): nat {
    if b == [] then 0
    else if b[0] <= 0x7F then 1
    else if 0xC2 <= b[0] <= 0xDF then if Continues(b, 1, 0x80, 0xBF) then 2 else 0
    else if 0xE0 <= b[0] <= 0xEF then
      var lo := if b[0] == 0xE0 then 0xA0 else 0x80;
      var hi := if b[0] == 0xED then 0x9F else 0xBF;
      if Continues(b, 1, lo, hi) && Continues(b, 2, 0x80, 0xBF) then 3 else 0
    else if 0xF0 <= b[0] <= 0xF4 then
      var lo := if b[0] == 0xF0 then 0x90 else 0x80;
      var hi := if b[0] == 0xF4 then 0x8F else 0xBF;
      if Continues(b, 1, lo, hi) && Continues(b, 2, 0x80, 0xBF) && Continues(b, 3, 0x80, 0xBF) then 4 else 0
    else 0
  }

  /** `from_utf8(..).is_ok()`. */
  predicate IsUtf8(b: Bytes)
    decreases |b|
  {
    b == [] || (0 < Utf8Lead(b) <= |b| && IsUtf8(b[Utf8Lead(b)..]))
  }

  // ---------------------------------------------------------------- records

  function KindByte(k: FsNodeKind): Byte { if k == FileNode then 1 else 2 }

  function NodeBytes(n: FsNode): Bytes {
    [KindByte(n.kind)] + Le16(|n.path|) + Le32(|n.data|) + n.path + n.data
  }

  function AllNodeBytes(nodes: seq<FsNode>): Bytes {
    if nodes == [] then [] else NodeBytes(nodes[0]) + AllNodeBytes(nodes[1..])
  }

  lemma OneMoreRecord(n: FsNode, rest: seq<FsNode>)
    ensures |AllNodeBytes([n] + rest)| == 7 + |n.path| + |n.data| + |AllNodeBytes(rest)|
  {
    hide Le16, Le32;
    assert ([n] + rest)[0] == n && ([n] + rest)[1..] == rest;
    assert |NodeBytes(n)| == 7 + |n.path| + |n.data|;
    assert AllNodeBytes([n] + rest) == NodeBytes(n) + AllNodeBytes(rest);
  }

  /** `serialize_tree`. */
  function Serialized(nodes: seq<FsNode>): Bytes {
    MAGIC + Le32(VERSION) + Le32(|nodes|) + AllNodeBytes(nodes)
  }

  /** One record read from the front of `b`, and what follows it. */
  function ReadNode(b: Bytes): Option<(FsNode, Bytes)> {
    if b == [] || (b[0] != 1 && b[0] != 2) then None
    else
      var pathLen, dataLen := ReadLe16(b, 1), ReadLe32(b, 3);
      if pathLen.None? || dataLen.None? || 7 + pathLen.value + dataLen.value > |b| then None
      else
        var path := b[7..7 + pathLen.value];
        if !IsUtf8(path) then None
        else Some((FsNode(path, if b[0] == 1 then FileNode else DirectoryNode,
                          b[7 + pathLen.value..7 + pathLen.value + dataLen.value]),
                   b[7 + pathLen.value + dataLen.value..]))
  }

  function ReadNodes(b: Bytes, count: nat): Option<seq<FsNode>>
    decreases count
  {
    if count == 0 then Some([])
    else
      match ReadNode(b)
      case None => None
      case Some((node, rest)) =>
        match ReadNodes(rest, count - 1)
        case None => None
        case Some(nodes) => Some([node] + nodes)
  }

  /** `deserialize_tree`. */
  function Deserialized(b: Bytes): Option<seq<FsNode>> {
    if |b| < HEADER || b[..8] != MAGIC || ReadLe32(b, 8) != Some(VERSION) then None
    else ReadNodes(b[HEADER..], ReadLe32(b, 12).value)
  }

  // ---------------------------------------------------------------- round trip

  predicate NodeFits(n: FsNode) { |n.path| < U16_COUNT && |n.data| < U32_COUNT }

  /** Every length fits the field it is stored in. */
  predicate Fits(nodes: seq<FsNode>) { |nodes| < U32_COUNT && forall i :: 0 <= i < |nodes| ==> NodeFits(nodes[i]) }

  predicate AllUtf8(nodes: seq<FsNode>) { forall i :: 0 <= i < |nodes| ==> IsUtf8(nodes[i].path) }

  lemma ReadsFirst(n: FsNode, rest: Bytes)
    requires NodeFits(n)
    ensures ReadNode(NodeBytes(n) + rest) == if IsUtf8(n.path) then Some((n, rest)) else None
  {
    hide IsUtf8, Le16, Le32, ReadLe16, ReadLe32;
    var b := NodeBytes(n) + rest;
    assert b[1..1 + 2] == Le16(|n.path|) && b[3..3 + 4] == Le32(|n.data|);
    Le16RoundTrip(|n.path|, b, 1);
    Le32RoundTrip(|n.data|, b, 3);
    var p := 7 + |n.path|;
    assert b[7..p] == n.path && b[p..p + |n.data|] == n.data && b[p + |n.data|..] == rest;
  }

  lemma NodeRoundTrip(n: FsNode, rest: Bytes)
    requires NodeFits(n) && IsUtf8(n.path)
    ensures ReadNode(NodeBytes(n) + rest) == Some((n, rest))
  {
    hide IsUtf8, NodeBytes, ReadNode;
    ReadsFirst(n, rest);
  }

  lemma {:induction false} NodesRoundTrip(nodes: seq<FsNode>, rest: Bytes)
    requires AllUtf8(nodes) && forall i :: 0 <= i < |nodes| ==> NodeFits(nodes[i])
    ensures ReadNodes(AllNodeBytes(nodes) + rest, |nodes|) == Some(nodes)
  {
    hide ReadNode, NodeBytes, IsUtf8;
    if nodes == [] {
      assert AllNodeBytes(nodes) + rest == rest;
    } else {
      assert [nodes[0]] + nodes[1..] == nodes;
      var more := AllNodeBytes(nodes[1..]) + rest;
      assert AllNodeBytes(nodes) + rest == NodeBytes(nodes[0]) + more;
      NodeRoundTrip(nodes[0], more);
      NodesRoundTrip(nodes[1..], rest);
    }
  }

  /** Whatever is read has lengths that fit their fields. */
  lemma {:induction false} ReadNodesFit(b: Bytes, count: nat)
    requires ReadNodes(b, count).Some?
    ensures |ReadNodes(b, count).value| == count
    ensures forall i :: 0 <= i < count ==> NodeFits(ReadNodes(b, count).value[i])
    decreases count
  {
    hide IsUtf8;
    if count > 0 {
      var (node, rest) := ReadNode(b).value;
      ReadNodesFit(rest, count - 1);
      assert NodeFits(node);
    }
  }

  /**
   Reading back a serialised tree, whatever bytes follow it, gives the tree exactly when every length
   fits its field; otherwise the truncated lengths give something else.
   */
  lemma {:induction false} RoundTripExactlyWhen(nodes: seq<FsNode>, padding: Bytes)
    requires AllUtf8(nodes)
    ensures Deserialized(Serialized(nodes) + padding) == Some(nodes) <==> Fits(nodes)
  {
    hide Serialized, Deserialized, AllNodeBytes, ReadNodes, AllUtf8, NodeFits;
    DeserializedReads(nodes, padding);
    var body := AllNodeBytes(nodes) + padding;
    if Fits(nodes) {
      NodesRoundTrip(nodes, padding);
    }
    if ReadNodes(body, |nodes| % U32_COUNT) == Some(nodes) {
      ReadNodesFit(body, |nodes| % U32_COUNT);
    }
  }

  lemma DeserializedReads(nodes: seq<FsNode>, padding: Bytes)
    ensures Deserialized(Serialized(nodes) + padding) == ReadNodes(AllNodeBytes(nodes) + padding, |nodes| % U32_COUNT)
  {
    HeaderReads(nodes, padding);
    hide Serialized, AllNodeBytes, ReadNodes, ReadLe32;
  }

  // ---------------------------------------------------------------- damaged images

  /** A record cut short is never read. */
  lemma CutNodeFails(n: FsNode, rest: Bytes, k: nat)
    requires NodeFits(n) && k < |NodeBytes(n)|
    ensures ReadNode((NodeBytes(n) + rest)[..k]) == None
  {
    hide IsUtf8, Le16, Le32, ReadLe16, ReadLe32;
    var full := NodeBytes(n) + rest;
    var b := full[..k];
    if k < 7 {
      NoLength(b);
    } else {
      assert full[1..1 + 2] == Le16(|n.path|) && full[3..3 + 4] == Le32(|n.data|);
      assert b[1..1 + 2] == full[1..1 + 2] && b[3..3 + 4] == full[3..3 + 4];
      Le16RoundTrip(|n.path|, b, 1);
      Le32RoundTrip(|n.data|, b, 3);
    }
  }

  lemma NoLength(b: Bytes)
    requires |b| < 7
    ensures ReadLe32(b, 3).None?
  {
  }

  /** A list of records cut short is never read. */
  lemma {:induction false} CutNodesFail(nodes: seq<FsNode>, k: nat)
    requires (forall i :: 0 <= i < |nodes| ==> NodeFits(nodes[i])) && k < |AllNodeBytes(nodes)|
    ensures ReadNodes(AllNodeBytes(nodes)[..k], |nodes|) == None
  {
    hide ReadNode, NodeBytes, NodeFits;
    if nodes != [] {
      var n, rest := NodeBytes(nodes[0]), AllNodeBytes(nodes[1..]);
      if k < |n| {
        CutNodeFails(nodes[0], rest, k);
      } else {
        assert (n + rest)[..k] == n + rest[..k - |n|];
        CutNodesFail(nodes[1..], k - |n|);
        ReadsFirst(nodes[0], rest[..k - |n|]);
      }
    }
  }

  /** A proper prefix of a serialised tree whose lengths fit never deserialises. */
  lemma CutTreeFails(nodes: seq<FsNode>, k: nat)
    requires Fits(nodes) && k < |Serialized(nodes)|
    ensures Deserialized(Serialized(nodes)[..k]) == None
  {
    hide AllNodeBytes, ReadNodes, Le32, ReadLe32;
    if k >= HEADER {
      var full := Serialized(nodes);
      assert full + [] == full;
      HeaderReads(nodes, []);
      var b := full[..k];
      assert b[..8] == full[..8] && b[8..8 + 4] == full[8..8 + 4] && b[12..12 + 4] == full[12..12 + 4];
      SameWord(b, full, 8);
      SameWord(b, full, 12);
      assert AllNodeBytes(nodes) + [] == AllNodeBytes(nodes);
      assert b[HEADER..] == full[HEADER..][..k - HEADER];
      CutNodesFail(nodes, k - HEADER);
    }
  }

  lemma SameWord(a: Bytes, b: Bytes, at: nat)
    requires at + 4 <= |a| && at + 4 <= |b| && a[at..at + 4] == b[at..at + 4]
    ensures ReadLe32(a, at) == ReadLe32(b, at)
  {
    var s, t := a[at..at + 4], b[at..at + 4];
    assert a[at] == s[0] && a[at + 1] == s[1] && a[at + 2] == s[2] && a[at + 3] == s[3];
    assert b[at] == t[0] && b[at + 1] == t[1] && b[at + 2] == t[2] && b[at + 3] == t[3];
  }

  lemma {:induction false} AsciiIsUtf8(b: Bytes)
    requires forall i :: 0 <= i < |b| ==> b[i] <= 0x7F
    ensures IsUtf8(b)
    decreases |b|
  {
    if b != [] { AsciiIsUtf8(b[1..]); }
  }

  lemma HeaderReads(nodes: seq<FsNode>, padding: Bytes)
    ensures var b := Serialized(nodes) + padding;
            && |b| >= HEADER && b[..8] == MAGIC
            && ReadLe32(b, 8) == Some(VERSION) && ReadLe32(b, 12) == Some(|nodes| % U32_COUNT)
            && b[HEADER..] == AllNodeBytes(nodes) + padding
  {
    hide AllNodeBytes, Le32, ReadLe32;
    var b := Serialized(nodes) + padding;
    var head := MAGIC + Le32(VERSION) + Le32(|nodes|);
    assert b == head + (AllNodeBytes(nodes) + padding);
    HeaderSlices(MAGIC, Le32(VERSION), Le32(|nodes|), AllNodeBytes(nodes) + padding);
    Le32RoundTrip(VERSION, b, 8);
    Le32RoundTrip(|nodes|, b, 12);
  }

  lemma HeaderSlices(m: Bytes, v: Bytes, c: Bytes, rest: Bytes)
    requires |m| == 8 && |v| == 4 && |c| == 4
    ensures var b := (m + v + c) + rest;
            b[..8] == m && b[8..8 + 4] == v && b[12..12 + 4] == c && b[HEADER..] == rest
  {
  }

  // ---------------------------------------------------------------- the loops

  /** `serialize_tree`'s loop. */
  method Serialize(nodes: seq<FsNode>) returns (out: Bytes)
    ensures out == Serialized(nodes)
  {
    hide NodeBytes;
    out := MAGIC + Le32(VERSION) + Le32(|nodes|);
    ghost var header := out;
    for i := 0 to |nodes|
      invariant header + AllNodeBytes(nodes) == out + AllNodeBytes(nodes[i..])
    {
      ghost var left := nodes[i..];
      assert left[0] == nodes[i] && left[1..] == nodes[i + 1..];
      assert out + (NodeBytes(nodes[i]) + AllNodeBytes(nodes[i + 1..])) == (out + NodeBytes(nodes[i])) + AllNodeBytes(nodes[i + 1..]);
      out := out + NodeBytes(nodes[i]);
    }
    assert nodes[|nodes|..] == [];
  }

  /** `deserialize_tree`'s loop, with its byte cursor. */
  method Deserialize(bytes: Bytes) returns (r: Option<seq<FsNode>>)
    ensures r == Deserialized(bytes)
  {
    hide ReadNode, ReadLe32;
    if |bytes| < HEADER || bytes[..8] != MAGIC || ReadLe32(bytes, 8) != Some(VERSION) { return None; }
    assert ReadLe32(bytes, 12).Some? by { HeaderHasCount(bytes); }
    var count := ReadLe32(bytes, 12).value;
    var at := HEADER;
    var nodes := [];
    ExtendNothing(ReadNodes(bytes[at..], count));
    for done := 0 to count
      invariant HEADER <= at <= |bytes|
      invariant Deserialized(bytes) == Extend(nodes, ReadNodes(bytes[at..], count - done))
    {
      var next := TakeNode(bytes, at);
      if next.None? { return None; }
      ExtendOne(nodes, next.value.0, ReadNodes(bytes[next.value.1..], count - done - 1));
      nodes, at := nodes + [next.value.0], next.value.1;
    }
    assert nodes + [] == nodes;
    return Some(nodes);
  }

  lemma HeaderHasCount(b: Bytes)
    requires |b| >= HEADER
    ensures ReadLe32(b, 12).Some?
  {
  }

  /** One turn of that loop: the record at the cursor, and the cursor after it. */
  method TakeNode(bytes: Bytes, at: nat) returns (r: Option<(FsNode, nat)>)
    requires at <= |bytes|
    ensures r.None? <==> ReadNode(bytes[at..]).None?
    ensures r.Some? ==> at <= r.value.1 <= |bytes| && ReadNode(bytes[at..]) == Some((r.value.0, bytes[r.value.1..]))
  {
    hide IsUtf8, ReadLe16, ReadLe32;
    if at >= |bytes| { return None; }
    var kind := bytes[at];
    if kind != 1 && kind != 2 { return None; }
    ShiftedReads(bytes, at);
    var pathLen := ReadLe16(bytes, at + 1);
    if pathLen.None? { return None; }
    var dataLen := ReadLe32(bytes, at + 3);
    if dataLen.None? { return None; }
    var p := at + 7 + pathLen.value;
    if p > |bytes| { return None; }
    var path := bytes[at + 7..p];
    assert path == bytes[at..][7..7 + pathLen.value];
    if !IsUtf8(path) { return None; }
    var d := p + dataLen.value;
    if d > |bytes| { return None; }
    assert bytes[p..d] == bytes[at..][p - at..d - at];
    assert bytes[d..] == bytes[at..][d - at..];
    return Some((FsNode(path, if kind == 1 then FileNode else DirectoryNode, bytes[p..d]), d));
  }

  function Extend(done: seq<FsNode>, rest: Option<seq<FsNode>>): Option<seq<FsNode>> {
    match rest
    case None => None
    case Some(nodes) => Some(done + nodes)
  }

  lemma ExtendNothing(rest: Option<seq<FsNode>>)
    ensures Extend([], rest) == rest
  {
    if rest.Some? {
      assert [] + rest.value == rest.value;
    }
  }

  lemma ExtendOne(done: seq<FsNode>, node: FsNode, rest: Option<seq<FsNode>>)
    ensures Extend(done, Extend([node], rest)) == Extend(done + [node], rest)
  {
    if rest.Some? {
      assert done + ([node] + rest.value) == (done + [node]) + rest.value;
    }
  }

  lemma ShiftedReads(bytes: Bytes, at: nat)
    requires at < |bytes|
    ensures ReadLe16(bytes[at..], 1) == ReadLe16(bytes, at + 1)
    ensures ReadLe32(bytes[at..], 3) == ReadLe32(bytes, at + 3)
  {
  }
}
