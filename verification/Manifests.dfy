/** The binary manifest (src/format/manifest.rs): one version's directory
    tree, its sorted child index, its sibling lists and its paths. */
module Manifests {
  import opened Wrappers
  import opened Bytes
  import opened Text
  import opened Seqs

  const HEADER_SIZE: nat := 0x38
  const NO_NODE: u32 := 0xffff_ffff
  const NO_FILE: u32 := 0xffff_ffff
  const SLASH: byte := 47

  datatype Node = Node(nameOffset: u32, countOrSize: u32, fileId: u32, flags: u32,
                       parent: u32, nextSibling: u32, firstChild: u32)
  {
    predicate IsDir() {
      fileId == NO_FILE
    }
  }

  datatype Manifest = Manifest(
    formatVersion: u32, appId: u32, versionId: u32, depotInfo: u32, fingerprint: u32,
    nodes: seq<Node>, stringTable: seq<byte>, nameLen: seq<nat>, byName: seq<nat>)
  {
    function Name(idx: nat): Text {
      if idx < |nodes| && idx < |nameLen| && nodes[idx].nameOffset + nameLen[idx] <= |stringTable|
      then stringTable[nodes[idx].nameOffset..nodes[idx].nameOffset + nameLen[idx]]
      else []
    }

    /** The first parentless node, normally 0. */
    function Root(): nat {
      RootFrom(nodes, 0)
    }

    /** `sort_key`: (parent, name). */
    function SortKey(idx: nat): seq<int> {
      [if idx < |nodes| then nodes[idx].parent else NO_NODE] + Name(idx)
    }
  }

  function RootFrom(nodes: seq<Node>, i: nat): nat
    decreases |nodes| - i
  {
    if i >= |nodes| then 0 else if nodes[i].parent == NO_NODE then i else RootFrom(nodes, i + 1)
  }

  // ---- parsing -----------------------------------------------------------

  /** One Adler-32 step from running sums `a` and `b` (section 2.2 of RFC 1950). */
  function AdlerStep(ab: (nat, nat), x: byte): (nat, nat) {
    var a := (ab.0 + x) % 65_521;
    (a, (ab.1 + a) % 65_521)
  }

  function AdlerFold(ab: (nat, nat), data: seq<byte>): (nat, nat) {
    if data == [] then ab else AdlerStep(AdlerFold(ab, data[..|data| - 1]), data[|data| - 1])
  }

  /** adler32 with seed 0 over the buffer with the fingerprint and checksum
      fields treated as zero. */
  function Checksum(data: seq<byte>): nat
    requires |data| >= HEADER_SIZE
  {
    var (a, b) := AdlerFold((0, 0), data[..0x30] + [0, 0, 0, 0, 0, 0, 0, 0] + data[0x38..]);
    b * 0x1_0000 + a
  }

  /** The sum of the bytes. */
  function ByteSum(data: seq<byte>): nat {
    if data == [] then 0 else data[0] + ByteSum(data[1..])
  }

  /** The sum of the bytes, each times its distance from the end. */
  function WeightedSum(data: seq<byte>): nat {
    if data == [] then 0 else |data| * data[0] + WeightedSum(data[1..])
  }

  lemma {:induction false} SumsSnoc(data: seq<byte>, x: byte)
    ensures ByteSum(data + [x]) == ByteSum(data) + x
    ensures WeightedSum(data + [x]) == WeightedSum(data) + ByteSum(data) + x
  {
    if data == [] {
      assert data + [x] == [x] && [x][1..] == [];
    } else {
      SumsSnoc(data[1..], x);
      assert (data + [x])[1..] == data[1..] + [x];
      assert (|data| + 1) * data[0] == |data| * data[0] + data[0];
    }
  }

  /** The running sums of Adler-32 in closed form. */
  lemma {:induction false} AdlerIsSums(data: seq<byte>)
    ensures AdlerFold((0, 0), data) == (ByteSum(data) % 65_521, WeightedSum(data) % 65_521)
  {
    if data != [] {
      hide ByteSum, WeightedSum;
      var before, x := data[..|data| - 1], data[|data| - 1];
      assert data == before + [x];
      AdlerIsSums(before);
      SumsSnoc(before, x);
      AdlerStepAdds(ByteSum(before), WeightedSum(before), x);
    }
  }

  lemma AdlerStepAdds(a: nat, b: nat, x: byte)
    ensures AdlerStep((a % 65_521, b % 65_521), x) == ((a + x) % 65_521, (b + a + x) % 65_521)
  {
    ModAdds(a, x);
    ModAdds(b, a + x);
  }

  lemma ModAdds(a: nat, b: nat)
    ensures (a % 65_521 + b) % 65_521 == (a + b) % 65_521 == (a % 65_521 + b % 65_521) % 65_521
  {
  }

  /** The buffer with bytes 0x30 to 0x37 zero. */
  ghost predicate Blanked(data: seq<byte>, z: seq<byte>) {
    |z| == |data| && forall i :: 0 <= i < |data| ==> z[i] == if 0x30 <= i < 0x38 then 0 else data[i]
  }

  /** The documented checksum: both sums modulo 65521 over the buffer without
      its fingerprint and checksum. */
  ghost predicate SumsTo(data: seq<byte>, sum: nat) {
    exists z :: Blanked(data, z) && sum == WeightedSum(z) % 65_521 * 0x1_0000 + ByteSum(z) % 65_521
  }

  lemma ChecksumIsSums(data: seq<byte>, sum: nat)
    requires |data| >= HEADER_SIZE
    ensures SumsTo(data, sum) <==> sum == Checksum(data)
  {
    hide AdlerFold, ByteSum, WeightedSum;
    var z := data[..0x30] + [0, 0, 0, 0, 0, 0, 0, 0] + data[0x38..];
    AdlerIsSums(z);
    assert Blanked(data, z);
    forall y | Blanked(data, y) ensures y == z {
    }
  }

  function NodeAt(data: seq<byte>, base: nat): Result<Node, FormatError> {
    var a :- U32At(data, base);
    var b :- U32At(data, base + 4);
    var c :- U32At(data, base + 8);
    var d :- U32At(data, base + 12);
    var e :- U32At(data, base + 16);
    var f :- U32At(data, base + 20);
    var g :- U32At(data, base + 24);
    Ok(Node(a, b, c, d, e, f, g))
  }

  function NodesAt(data: seq<byte>, n: nat): (r: Result<seq<Node>, FormatError>)
    ensures r.Ok? ==> |r.value| == n
  {
    if n == 0 then Ok([])
    else
      var before :- NodesAt(data, n - 1);
      var node :- NodeAt(data, HEADER_SIZE + (n - 1) * 0x1c);
      Ok(before + [node])
  }

  /** Bytes before the first NUL, or all of them. */
  function NulPosition(b: seq<byte>): (n: nat)
    ensures n <= |b| && (n < |b| ==> b[n] == 0) && forall i :: 0 <= i < n ==> b[i] != 0
  {
    if b == [] || b[0] == 0 then 0 else 1 + NulPosition(b[1..])
  }

  predicate LinkInRange(link: u32, n: nat) {
    link == 0 || link == NO_NODE || link < n
  }

  /** A node's name length, once its offset and links are range-checked. */
  function CheckedLen(table: seq<byte>, n: nat, node: Node): Result<nat, FormatError> {
    if node.nameOffset > |table| then Err(Malformed("name offset out of range"))
    else if node.parent != NO_NODE && node.parent >= n then Err(Malformed("parent out of range"))
    else if !LinkInRange(node.firstChild, n) then Err(Malformed("first child out of range"))
    else if !LinkInRange(node.nextSibling, n) then Err(Malformed("next sibling out of range"))
    else Ok(NulPosition(table[node.nameOffset..]))
  }

  function CheckedLens(table: seq<byte>, nodes: seq<Node>, n: nat): (r: Result<seq<nat>, FormatError>)
    requires n <= |nodes|
    ensures r.Ok? ==> |r.value| == n
  {
    if n == 0 then Ok([])
    else
      var before :- CheckedLens(table, nodes, n - 1);
      var len :- CheckedLen(table, |nodes|, nodes[n - 1]);
      Ok(before + [len])
  }

  /** Indices below `n` of the nodes that have a parent, in order. */
  function WithParent(nodes: seq<Node>, n: nat): (r: seq<nat>)
    requires n <= |nodes|
    ensures forall i: nat :: i in r <==> i < n && nodes[i].parent != NO_NODE
  {
    if n == 0 then []
    else WithParent(nodes, n - 1) + if nodes[n - 1].parent != NO_NODE then [n - 1] else []
  }

  function ParseManifest(data: seq<byte>): Result<Manifest, FormatError> {
    if |data| < HEADER_SIZE then Err(Malformed("manifest shorter than header"))
    else
      var formatVersion :- U32At(data, 0);
      if formatVersion != 3 && formatVersion != 4 then Err(Malformed("manifest version"))
      else
        var appId :- U32At(data, 4);
        var versionId :- U32At(data, 8);
        var numNodes :- U32At(data, 12);
        var binarySize :- U32At(data, 24);
        var tableSize :- U32At(data, 28);
        var blockSize :- U32At(data, 20);
        var depotInfo :- U32At(data, 44);
        var fingerprint :- U32At(data, 48);
        var expected :- U32At(data, 52);
        if blockSize != 0x8000 then Err(Malformed("manifest block size"))
        else if binarySize != |data| then Err(Malformed("manifest binary_size"))
        else if Checksum(data) != expected then Err(Malformed("manifest checksum"))
        else
          var nodesEnd := HEADER_SIZE + numNodes * 0x1c;
          var stringsEnd := nodesEnd + tableSize;
          if stringsEnd > |data| then Err(Malformed("manifest node/string tables exceed buffer"))
          else
            var nodes :- NodesAt(data, numNodes);
            var table := data[nodesEnd..stringsEnd];
            var lens :- CheckedLens(table, nodes, |nodes|);
            Ok(Indexed(Manifest(formatVersion, appId, versionId, depotInfo, fingerprint, nodes, table, lens, [])))
  }

  /** Adds the (parent, name) index to a manifest. */
  function Indexed(m: Manifest): Manifest {
    m.(byName := Sort<nat>(WithParent(m.nodes, |m.nodes|), KeyOf(m)))
  }

  function KeyOf(m: Manifest): nat -> seq<int> {
    (i: nat) => m.SortKey(i)
  }

  lemma {:induction false} NodesFailEarly(data: seq<byte>, i: nat, n: nat)
    requires i <= n && NodesAt(data, i).Err?
    ensures NodesAt(data, n) == NodesAt(data, i)
    decreases n
  {
    hide NodeAt;
    if i < n {
      NodesFailEarly(data, i, n - 1);
    }
  }

  lemma {:induction false} LensFailEarly(table: seq<byte>, nodes: seq<Node>, i: nat, n: nat)
    requires i <= n <= |nodes| && CheckedLens(table, nodes, i).Err?
    ensures CheckedLens(table, nodes, n) == CheckedLens(table, nodes, i)
    decreases n
  {
    hide CheckedLen;
    if i < n {
      LensFailEarly(table, nodes, i, n - 1);
    }
  }

  method ReadNodes(data: seq<byte>, n: nat) returns (r: Result<seq<Node>, FormatError>)
    ensures r == NodesAt(data, n)
  {
    hide NodeAt;
    var nodes: seq<Node> := [];
    for i := 0 to n
      invariant NodesAt(data, i) == Ok(nodes)
    {
      var node := NodeAt(data, HEADER_SIZE + i * 0x1c);
      if node.Err? {
        NodesFailEarly(data, i + 1, n);
        return Err(node.error);
      }
      nodes := nodes + [node.value];
    }
    r := Ok(nodes);
  }

  method CheckNodes(table: seq<byte>, nodes: seq<Node>) returns (r: Result<seq<nat>, FormatError>)
    ensures r == CheckedLens(table, nodes, |nodes|)
  {
    hide CheckedLen;
    var lens: seq<nat> := [];
    for i := 0 to |nodes|
      invariant CheckedLens(table, nodes, i) == Ok(lens)
    {
      var len := CheckedLen(table, |nodes|, nodes[i]);
      if len.Err? {
        LensFailEarly(table, nodes, i + 1, |nodes|);
        return Err(len.error);
      }
      lens := lens + [len.value];
    }
    r := Ok(lens);
  }

  /** `Manifest::parse` as written: node loop, name-length loop, sorted index. */
  method Parse(data: seq<byte>) returns (r: Result<Manifest, FormatError>)
    ensures r == ParseManifest(data)
  {
    hide NodesAt, CheckedLens, Indexed, AdlerFold, U32At;
    if |data| < HEADER_SIZE {
      return Err(Malformed("manifest shorter than header"));
    }
    var formatVersion :- U32At(data, 0);
    if formatVersion != 3 && formatVersion != 4 {
      return Err(Malformed("manifest version"));
    }
    var appId :- U32At(data, 4);
    var versionId :- U32At(data, 8);
    var numNodes :- U32At(data, 12);
    var binarySize :- U32At(data, 24);
    var tableSize :- U32At(data, 28);
    var blockSize :- U32At(data, 20);
    var depotInfo :- U32At(data, 44);
    var fingerprint :- U32At(data, 48);
    var expected :- U32At(data, 52);
    if blockSize != 0x8000 {
      return Err(Malformed("manifest block size"));
    }
    if binarySize != |data| {
      return Err(Malformed("manifest binary_size"));
    }
    if Checksum(data) != expected {
      return Err(Malformed("manifest checksum"));
    }
    var nodesEnd := HEADER_SIZE + numNodes * 0x1c;
    var stringsEnd := nodesEnd + tableSize;
    if stringsEnd > |data| {
      return Err(Malformed("manifest node/string tables exceed buffer"));
    }
    var nodes := ReadNodes(data, numNodes);
    if nodes.Err? {
      return Err(nodes.error);
    }
    var table := data[nodesEnd..stringsEnd];
    var lens := CheckNodes(table, nodes.value);
    if lens.Err? {
      return Err(lens.error);
    }
    var m := Manifest(formatVersion, appId, versionId, depotInfo, fingerprint, nodes.value, table, lens.value, []);
    r := Ok(Indexed(m));
  }

  // ---- what every parsed manifest satisfies ------------------------------

  ghost predicate NodeInRange(m: Manifest, i: nat)
    requires i < |m.nodes| == |m.nameLen|
  {
    && m.nodes[i].nameOffset <= |m.stringTable|
    && m.nameLen[i] == NulPosition(m.stringTable[m.nodes[i].nameOffset..])
    && (m.nodes[i].parent == 0xffff_ffff || m.nodes[i].parent < |m.nodes|)
    && LinkInRange(m.nodes[i].firstChild, |m.nodes|) && LinkInRange(m.nodes[i].nextSibling, |m.nodes|)
  }

  ghost predicate Valid(m: Manifest) {
    && |m.nameLen| == |m.nodes|
    && (forall i :: 0 <= i < |m.nodes| ==> NodeInRange(m, i))
    && (forall i: nat :: i in m.byName <==> i < |m.nodes| && m.nodes[i].parent != NO_NODE)
    && SortedBy(m.byName, KeyOf(m))
  }

  /** A node's name is the string at its offset in the string table: up to the
      first NUL or the end of the table. */
  lemma NameMeaning(m: Manifest, idx: nat)
    requires Valid(m)
    ensures idx >= |m.nodes| ==> m.Name(idx) == []
    ensures idx < |m.nodes| ==>
      var at, name := m.nodes[idx].nameOffset, m.Name(idx);
      && Occurs(m.stringTable, at, name) && 0 !in name
      && (at + |name| == |m.stringTable| || m.stringTable[at + |name|] == 0)
  {
    if idx < |m.nodes| {
      assert NodeInRange(m, idx);
      var at, rest := m.nodes[idx].nameOffset, m.stringTable[m.nodes[idx].nameOffset..];
      var n := NulPosition(rest);
      assert m.Name(idx) == m.stringTable[at..at + n] == rest[..n];
      assert forall i :: 0 <= i < n ==> rest[i] != 0;
      if n < |rest| {
        assert rest[n] == m.stringTable[at + n];
      }
    }
  }

  /** The root is the first node without a parent, or node 0 if all have one. */
  lemma {:induction false} RootMeaning(nodes: seq<Node>, i: nat)
    requires i <= |nodes|
    ensures var r := RootFrom(nodes, i);
      || (i <= r < |nodes| && nodes[r].parent == NO_NODE && forall j :: i <= j < r ==> nodes[j].parent != NO_NODE)
      || (r == 0 && forall j :: i <= j < |nodes| ==> nodes[j].parent != NO_NODE)
    decreases |nodes| - i
  {
    if i < |nodes| && nodes[i].parent != NO_NODE {
      RootMeaning(nodes, i + 1);
    }
  }

  lemma {:induction false} CheckedLensInRange(table: seq<byte>, nodes: seq<Node>, n: nat)
    requires n <= |nodes| && CheckedLens(table, nodes, n).Ok?
    ensures forall i :: 0 <= i < n ==> CheckedLen(table, |nodes|, nodes[i]) == Ok(CheckedLens(table, nodes, n).value[i])
  {
    hide CheckedLen;
    if n > 0 {
      CheckedLensInRange(table, nodes, n - 1);
    }
  }

  lemma IndexSorts(m: Manifest)
    ensures forall i: nat :: i in Indexed(m).byName <==> i < |m.nodes| && m.nodes[i].parent != NO_NODE
    ensures SortedBy(Indexed(m).byName, KeyOf(Indexed(m)))
  {
    hide Sort;
    var xs := WithParent(m.nodes, |m.nodes|);
    SortIsSortedPermutation<nat>(xs, KeyOf(m));
    forall i: nat ensures KeyOf(Indexed(m))(i) == KeyOf(m)(i) {
    }
  }

  /** Parsing establishes every range and the sorted index. */
  lemma ParsedIsValid(data: seq<byte>)
    requires ParseManifest(data).Ok?
    ensures Valid(ParseManifest(data).value)
  {
    hide NodesAt, CheckedLens, Indexed, U32At, Checksum;
    var m := ParseManifest(data).value;
    var table, nodes, lens, bare := ParsedParts(data);
    CheckedLensInRange(table, nodes, |nodes|);
    IndexSorts(bare);
    IndexKeeps(bare);
    forall i | 0 <= i < |nodes| ensures NodeInRange(m, i) {
      assert CheckedLen(table, |nodes|, nodes[i]) == Ok(lens[i]);
    }
  }

  lemma IndexKeeps(m: Manifest)
    ensures Indexed(m).nodes == m.nodes && Indexed(m).nameLen == m.nameLen && Indexed(m).stringTable == m.stringTable
  {
  }

  lemma ParsedParts(data: seq<byte>)
    returns (table: seq<byte>, nodes: seq<Node>, lens: seq<nat>, bare: Manifest)
    requires ParseManifest(data).Ok?
    ensures CheckedLens(table, nodes, |nodes|) == Ok(lens)
    ensures bare.nodes == nodes && bare.stringTable == table && bare.nameLen == lens && bare.byName == []
    ensures NodesAt(data, |nodes|) == Ok(nodes) && HEADER_SIZE + 0x1c * |nodes| + |table| <= |data|
    ensures table == data[HEADER_SIZE + 0x1c * |nodes|..HEADER_SIZE + 0x1c * |nodes| + |table|]
    ensures ParseManifest(data).value == Indexed(bare)
  {
    hide NodesAt, CheckedLens, Indexed, U32At, Checksum;
    var numNodes, tableSize := U32At(data, 12).value, U32At(data, 28).value;
    var nodesEnd := HEADER_SIZE + numNodes * 0x1c;
    nodes := NodesAt(data, numNodes).value;
    table := data[nodesEnd..nodesEnd + tableSize];
    lens := CheckedLens(table, nodes, |nodes|).value;
    bare := Manifest(U32At(data, 0).value, U32At(data, 4).value, U32At(data, 8).value, U32At(data, 44).value,
                     U32At(data, 48).value, nodes, table, lens, []);
  }

  // ---- the documented layout ---------------------------------------------

  function NodeWords(n: Node): (ws: seq<nat>)
    ensures |ws| == 7
  {
    [n.nameOffset, n.countOrSize, n.fileId, n.flags, n.parent, n.nextSibling, n.firstChild]
  }

  function EncodeNodes(nodes: seq<Node>): (e: seq<byte>)
    ensures |e| == 0x1c * |nodes|
  {
    if nodes == [] then [] else EncodeNodes(nodes[..|nodes| - 1]) + Words(NodeWords(nodes[|nodes| - 1]))
  }

  lemma NodeOccurs(data: seq<byte>, base: nat, n: Node)
    requires base <= |data|
    ensures NodeAt(data, base) == Ok(n) <==> Occurs(data, base, Words(NodeWords(n)))
  {
    hide U32At, Occurs, Words;
    var ws := NodeWords(n);
    WordsOccur(data, base, ws, 7);
    assert ws[..7] == ws;
    if Occurs(data, base, Words(ws)) {
      assert forall i :: 0 <= i < 7 ==> U32At(data, base + 4 * i) == Ok(ws[i]);
      assert U32At(data, base + 4 * 0) == Ok(ws[0]) && U32At(data, base + 4 * 1) == Ok(ws[1]);
      assert U32At(data, base + 4 * 2) == Ok(ws[2]) && U32At(data, base + 4 * 3) == Ok(ws[3]);
      assert U32At(data, base + 4 * 4) == Ok(ws[4]) && U32At(data, base + 4 * 5) == Ok(ws[5]);
      assert U32At(data, base + 4 * 6) == Ok(ws[6]);
    }
  }

  lemma NodesSnoc(nodes: seq<Node>, n: Node)
    ensures EncodeNodes(nodes + [n]) == EncodeNodes(nodes) + Words(NodeWords(n))
  {
    hide Words;
    assert (nodes + [n])[..|nodes|] == nodes;
  }

  lemma NodesAtNext(data: seq<byte>, n: nat)
    ensures NodesAt(data, 0) == Ok([]) && EncodeNodes([]) == []
    ensures NodesAt(data, n + 1).Ok? <==> NodesAt(data, n).Ok? && NodeAt(data, HEADER_SIZE + n * 0x1c).Ok?
    ensures NodesAt(data, n + 1).Ok? ==>
      NodesAt(data, n + 1).value == NodesAt(data, n).value + [NodeAt(data, HEADER_SIZE + n * 0x1c).value]
  {
    hide NodeAt;
  }

  /** The node table is read exactly where and as it is laid out. */
  lemma {:induction false} NodesOccur(data: seq<byte>, nodes: seq<Node>)
    requires HEADER_SIZE + 0x1c * |nodes| <= |data|
    ensures NodesAt(data, |nodes|) == Ok(nodes) <==> Occurs(data, HEADER_SIZE, EncodeNodes(nodes))
  {
    hide NodeAt, NodesAt, EncodeNodes, Words, NodeWords;
    if nodes == [] {
      NodesAtNext(data, 0);
    } else {
      var k := |nodes| - 1;
      var before, n := nodes[..k], nodes[k];
      assert nodes == before + [n];
      NodesOccur(data, before);
      NodesAtNext(data, k);
      NodeOccurs(data, HEADER_SIZE + k * 0x1c, n);
      NodesSnoc(before, n);
      OccursSplit(data, HEADER_SIZE, EncodeNodes(before), Words(NodeWords(n)));
    }
  }

  /** The manifest's own fields in header words `h`, in the documented order. */
  ghost predicate HeaderOf(h: seq<nat>, m: Manifest, size: nat) {
    && |h| == 14
    && (m.formatVersion == 3 || m.formatVersion == 4)
    && h[0] == m.formatVersion && h[1] == m.appId && h[2] == m.versionId && h[3] == |m.nodes|
    && h[5] == 0x8000 && h[6] == size && h[7] == |m.stringTable|
    && h[11] == m.depotInfo && h[12] == m.fingerprint
  }

  /** In index order: by (parent, name), equal ones by position. */
  ghost predicate ComesFirst(m: Manifest, i: nat, j: nat) {
    LexLess(m.SortKey(i), m.SortKey(j)) || (m.SortKey(i) == m.SortKey(j) && i < j)
  }

  ghost predicate InOrder(m: Manifest, s: seq<nat>) {
    forall p, q :: 0 <= p < q < |s| ==> ComesFirst(m, s[p], s[q])
  }

  /** The index lists every node with a parent, in index order. */
  ghost predicate IndexRight(m: Manifest) {
    (forall i: nat :: i in m.byName <==> HasParent(m, i)) && InOrder(m, m.byName)
  }

  ghost predicate RangesRight(m: Manifest) {
    |m.nameLen| == |m.nodes| && forall i :: 0 <= i < |m.nodes| ==> NodeInRange(m, i)
  }

  /** Header words, node table and string table of the buffer hold `m`, whose
      links and names are in range and whose index is right. */
  ghost predicate LaidOut(data: seq<byte>, h: seq<nat>, m: Manifest)
    requires |data| >= HEADER_SIZE
  {
    && HeaderOf(h, m, |data|) && SumsTo(data, h[13])
    && Occurs(data, HEADER_SIZE, EncodeNodes(m.nodes))
    && Occurs(data, HEADER_SIZE + 0x1c * |m.nodes|, m.stringTable)
    && RangesRight(m) && IndexRight(m)
  }

  lemma {:induction false} LensFromRange(m: Manifest, n: nat)
    requires n <= |m.nodes| == |m.nameLen| && forall i :: 0 <= i < n ==> NodeInRange(m, i)
    ensures CheckedLens(m.stringTable, m.nodes, n) == Ok(m.nameLen[..n])
  {
    if n > 0 {
      LensFromRange(m, n - 1);
      assert NodeInRange(m, n - 1);
      assert m.nameLen[..n] == m.nameLen[..n - 1] + [m.nameLen[n - 1]];
    }
  }

  lemma RangesAreChecked(m: Manifest)
    ensures CheckedLens(m.stringTable, m.nodes, |m.nodes|) == Ok(m.nameLen) <==> RangesRight(m)
  {
    hide CheckedLens;
    if RangesRight(m) {
      LensFromRange(m, |m.nodes|);
      assert m.nameLen[..|m.nodes|] == m.nameLen;
    }
    if CheckedLens(m.stringTable, m.nodes, |m.nodes|) == Ok(m.nameLen) {
      CheckedLensInRange(m.stringTable, m.nodes, |m.nodes|);
      forall i | 0 <= i < |m.nodes| ensures NodeInRange(m, i) {
        assert CheckedLen(m.stringTable, |m.nodes|, m.nodes[i]) == Ok(m.nameLen[i]);
      }
    }
  }

  lemma {:induction false} WithParentAscends(nodes: seq<Node>, n: nat)
    requires n <= |nodes|
    ensures forall p, q :: 0 <= p < q < |WithParent(nodes, n)| ==> WithParent(nodes, n)[p] < WithParent(nodes, n)[q]
  {
    if n > 0 {
      WithParentAscends(nodes, n - 1);
      var before := WithParent(nodes, n - 1);
      assert forall p :: 0 <= p < |before| ==> before[p] in before;
    }
  }

  /** Sorting keeps equal keys in their order. */
  lemma {:induction false} InsertInOrder(m: Manifest, x: nat, s: seq<nat>)
    requires InOrder(m, s) && forall i :: 0 <= i < |s| ==> x < s[i]
    ensures InOrder(m, InsertBy<nat>(x, s, KeyOf(m)))
    ensures forall y :: y in InsertBy<nat>(x, s, KeyOf(m)) <==> y == x || y in s
  {
    hide Manifest.SortKey, LexLess;
    if s != [] {
      var head, rest := s[0], s[1..];
      LexTotal(m.SortKey(x), m.SortKey(head));
      if LexLe(KeyOf(m)(x), KeyOf(m)(head)) {
        forall q | 0 <= q < |s| ensures ComesFirst(m, x, s[q]) {
          if q > 0 {
            assert ComesFirst(m, s[0], s[q]);
            FirstIsTransitive(m, x, head, s[q]);
          }
        }
      } else {
        InsertInOrder(m, x, rest);
        var out := InsertBy<nat>(x, rest, KeyOf(m));
        forall q | 0 <= q < |out| ensures ComesFirst(m, head, out[q]) {
          assert out[q] in out;
          if out[q] != x {
            var k :| 0 <= k < |rest| && rest[k] == out[q];
            assert ComesFirst(m, s[0], s[k + 1]);
          }
        }
      }
    }
  }

  lemma FirstIsTransitive(m: Manifest, i: nat, j: nat, k: nat)
    requires ComesFirst(m, i, j) && ComesFirst(m, j, k)
    ensures ComesFirst(m, i, k)
  {
    if LexLess(m.SortKey(i), m.SortKey(j)) && LexLess(m.SortKey(j), m.SortKey(k)) {
      LexTransitive(m.SortKey(i), m.SortKey(j), m.SortKey(k));
    }
  }

  lemma FirstIsAsymmetric(m: Manifest, i: nat, j: nat)
    requires ComesFirst(m, i, j)
    ensures i != j && !ComesFirst(m, j, i)
  {
    LexTotal(m.SortKey(i), m.SortKey(j));
  }

  lemma {:induction false} SortInOrder(m: Manifest, s: seq<nat>)
    requires forall p, q :: 0 <= p < q < |s| ==> s[p] < s[q]
    ensures InOrder(m, Sort<nat>(s, KeyOf(m))) && forall y :: y in Sort<nat>(s, KeyOf(m)) <==> y in s
  {
    if s != [] {
      SortInOrder(m, s[1..]);
      var rest := Sort<nat>(s[1..], KeyOf(m));
      forall i | 0 <= i < |rest| ensures s[0] < rest[i] {
        assert rest[i] in rest;
      }
      InsertInOrder(m, s[0], rest);
    }
  }

  /** Only one sequence of given members is in order. */
  lemma {:induction false} OrderIsUnique(m: Manifest, s: seq<nat>, t: seq<nat>)
    requires InOrder(m, s) && InOrder(m, t) && forall y :: y in s <==> y in t
    ensures s == t
  {
    hide ComesFirst;
    assert (t != [] ==> t[0] in t) && (s != [] ==> s[0] in s);
    if s != [] {
      SameFirst(m, s, t);
      NotAgain(m, s);
      NotAgain(m, t);
      TailMembers(s);
      TailMembers(t);
      OrderIsUnique(m, s[1..], t[1..]);
    }
  }

  lemma TailMembers(s: seq<nat>)
    requires s != [] && s[0] !in s[1..]
    ensures forall y :: y in s[1..] <==> y in s && y != s[0]
  {
    assert s == [s[0]] + s[1..];
  }

  lemma NotAgain(m: Manifest, s: seq<nat>)
    requires InOrder(m, s) && s != []
    ensures s[0] !in s[1..]
  {
    hide ComesFirst;
    forall k | 0 <= k < |s[1..]| ensures s[1..][k] != s[0] {
      assert ComesFirst(m, s[0], s[k + 1]);
      FirstIsAsymmetric(m, s[0], s[k + 1]);
    }
  }

  lemma SameFirst(m: Manifest, s: seq<nat>, t: seq<nat>)
    requires InOrder(m, s) && InOrder(m, t) && s != [] && t != [] && s[0] in t && t[0] in s
    ensures s[0] == t[0]
  {
    hide ComesFirst;
    var i :| 0 <= i < |t| && t[i] == s[0];
    var j :| 0 <= j < |s| && s[j] == t[0];
    if i > 0 && j > 0 {
      assert ComesFirst(m, t[0], t[i]) && ComesFirst(m, s[0], s[j]);
      FirstIsAsymmetric(m, t[0], s[0]);
      assert false;
    }
  }

  lemma OrderIgnoresIndex(m: Manifest, n: Manifest, s: seq<nat>)
    requires n == m.(byName := n.byName)
    ensures InOrder(m, s) <==> InOrder(n, s)
  {
    assert forall i: nat :: m.SortKey(i) == n.SortKey(i);
  }

  lemma IndexIsSorted(m: Manifest)
    ensures m == Indexed(m.(byName := [])) <==> IndexRight(m)
  {
    hide InOrder, Sort, WithParent;
    var bare := m.(byName := []);
    var listed := WithParent(m.nodes, |m.nodes|);
    WithParentAscends(m.nodes, |m.nodes|);
    SortInOrder(bare, listed);
    var sorted := Sort<nat>(listed, KeyOf(bare));
    OrderIgnoresIndex(bare, m, sorted);
    assert Indexed(bare) == m.(byName := sorted);
    if IndexRight(m) {
      OrderIsUnique(m, m.byName, sorted);
    }
  }

  lemma ParseSound(data: seq<byte>, h: seq<nat>)
    requires |data| >= HEADER_SIZE && |h| == 14 && forall i :: 0 <= i < 14 ==> h[i] < U32_LIMIT
    requires Occurs(data, 0, Words(h)) && ParseManifest(data).Ok?
    ensures LaidOut(data, h, ParseManifest(data).value)
  {
    hide U32At, Words, NodesAt, EncodeNodes, CheckedLens, Checksum, Indexed, Occurs, ParseManifest, RangesRight, IndexRight, SumsTo;
    HeaderReads(data, h);
    var table, nodes, lens, bare := ParsedParts(data);
    IndexKeeps(bare);
    IndexForgets(bare);
    NodesOccur(data, nodes);
    SliceOccurs(data, HEADER_SIZE + 0x1c * |nodes|, table);
    ParsedHeader(data, bare);
    RangesAreChecked(Indexed(bare));
    IndexIsSorted(Indexed(bare));
    ChecksumIsSums(data, h[13]);
  }

  lemma ParseComplete(data: seq<byte>, h: seq<nat>, m: Manifest)
    requires |data| >= HEADER_SIZE && |h| == 14 && forall i :: 0 <= i < 14 ==> h[i] < U32_LIMIT
    requires Occurs(data, 0, Words(h)) && LaidOut(data, h, m)
    ensures ParseManifest(data) == Ok(m)
  {
    hide U32At, Words, NodesAt, EncodeNodes, CheckedLens, Checksum, Indexed, Occurs, ParseManifest, RangesRight, IndexRight, SumsTo;
    HeaderReads(data, h);
    OccursInside(data, HEADER_SIZE + 0x1c * |m.nodes|, m.stringTable);
    NodesOccur(data, m.nodes);
    RangesAreChecked(m);
    IndexIsSorted(m);
    ChecksumIsSums(data, h[13]);
    ParseFromParts(data, m);
  }

  /** What the header reads must be for the parser to succeed with `m`. */
  lemma ParsedHeader(data: seq<byte>, m: Manifest)
    requires |data| >= HEADER_SIZE && ParseManifest(data) == Ok(Indexed(m))
    ensures m.formatVersion == 3 || m.formatVersion == 4
    ensures U32At(data, 0) == Ok(m.formatVersion) && U32At(data, 4) == Ok(m.appId) && U32At(data, 8) == Ok(m.versionId)
    ensures U32At(data, 12) == Ok(|m.nodes|) && U32At(data, 20) == Ok(0x8000) && U32At(data, 24) == Ok(|data|)
    ensures U32At(data, 28) == Ok(|m.stringTable|) && U32At(data, 44) == Ok(m.depotInfo)
    ensures U32At(data, 48) == Ok(m.fingerprint) && U32At(data, 52) == Ok(Checksum(data))
  {
    hide U32At, NodesAt, CheckedLens, Checksum, WithParent, Sort;
  }

  lemma ParseFromParts(data: seq<byte>, m: Manifest)
    requires |data| >= HEADER_SIZE && (m.formatVersion == 3 || m.formatVersion == 4)
    requires U32At(data, 0) == Ok(m.formatVersion) && U32At(data, 4) == Ok(m.appId) && U32At(data, 8) == Ok(m.versionId)
    requires U32At(data, 12) == Ok(|m.nodes|) && U32At(data, 20) == Ok(0x8000) && U32At(data, 24) == Ok(|data|)
    requires U32At(data, 28) == Ok(|m.stringTable|) && U32At(data, 44) == Ok(m.depotInfo)
    requires U32At(data, 48) == Ok(m.fingerprint) && U32At(data, 52) == Ok(Checksum(data))
    requires NodesAt(data, |m.nodes|) == Ok(m.nodes) && HEADER_SIZE + 0x1c * |m.nodes| + |m.stringTable| <= |data|
    requires data[HEADER_SIZE + 0x1c * |m.nodes|..HEADER_SIZE + 0x1c * |m.nodes| + |m.stringTable|] == m.stringTable
    requires CheckedLens(m.stringTable, m.nodes, |m.nodes|) == Ok(m.nameLen)
    ensures ParseManifest(data) == Ok(Indexed(m.(byName := [])))
  {
    hide U32At, NodesAt, CheckedLens, Checksum, Indexed;
  }

  lemma SliceOccurs(data: seq<byte>, off: nat, part: seq<byte>)
    requires off + |part| <= |data| && data[off..off + |part|] == part
    ensures Occurs(data, off, part)
  {
  }

  lemma OccursInside(data: seq<byte>, off: nat, part: seq<byte>)
    requires Occurs(data, off, part)
    ensures off + |part| <= |data| && data[off..off + |part|] == part
  {
  }

  /** A buffer parses to `m` exactly when it is laid out as documented. */
  lemma ParseIffLaidOut(data: seq<byte>, h: seq<nat>, m: Manifest)
    requires |data| >= HEADER_SIZE && |h| == 14 && forall i :: 0 <= i < 14 ==> h[i] < U32_LIMIT
    requires Occurs(data, 0, Words(h))
    ensures ParseManifest(data) == Ok(m) <==> LaidOut(data, h, m)
  {
    hide ParseManifest, LaidOut, Occurs, Words;
    if ParseManifest(data) == Ok(m) {
      ParseSound(data, h);
    } else if LaidOut(data, h, m) {
      ParseComplete(data, h, m);
    }
  }

  /** A buffer that is a manifest as documented, whatever its unused header
      words. */
  ghost predicate Holds(data: seq<byte>, m: Manifest) {
    |data| >= HEADER_SIZE && exists h :: HeaderWords(data, h) && LaidOut(data, h, m)
  }

  ghost predicate HeaderWords(data: seq<byte>, h: seq<nat>) {
    |h| == 14 && (forall i :: 0 <= i < 14 ==> h[i] < U32_LIMIT) && Occurs(data, 0, Words(h))
  }

  lemma ReadHeader(data: seq<byte>) returns (h: seq<nat>)
    requires |data| >= HEADER_SIZE
    ensures HeaderWords(data, h)
  {
    hide Words;
    var ok := forall i: nat :: i < 14 ==> U32At(data, 4 * i).Ok?;
    assert ok;
    hide U32At;
    h := seq(14, i requires 0 <= i < 14 => if U32At(data, 4 * i).Ok? then U32At(data, 4 * i).value else 0);
    forall i | 0 <= i < 14 ensures U32At(data, 0 + 4 * i) == Ok(h[i]) {
      assert U32At(data, 4 * i).Ok?;
    }
    WordsOccur(data, 0, h, 14);
    assert h[..14] == h;
  }

  /** The parser accepts exactly the documented buffers. */
  lemma ParseIffHolds(data: seq<byte>, m: Manifest)
    ensures ParseManifest(data) == Ok(m) <==> Holds(data, m)
  {
    if |data| >= HEADER_SIZE {
      hide ParseManifest, LaidOut, Occurs, Words;
      var h := ReadHeader(data);
      ParseIffLaidOut(data, h, m);
      forall g | HeaderWords(data, g) && LaidOut(data, g, m) ensures ParseManifest(data) == Ok(m) {
        ParseIffLaidOut(data, g, m);
      }
    }
  }

  lemma IndexForgets(m: Manifest)
    requires m.byName == []
    ensures Indexed(m).(byName := []) == m
  {
  }

  lemma HeaderReads(data: seq<byte>, h: seq<nat>)
    requires |h| == 14 && (forall i :: 0 <= i < 14 ==> h[i] < U32_LIMIT) && Occurs(data, 0, Words(h))
    ensures U32At(data, 0) == Ok(h[0]) && U32At(data, 4) == Ok(h[1]) && U32At(data, 8) == Ok(h[2])
    ensures U32At(data, 12) == Ok(h[3]) && U32At(data, 20) == Ok(h[5]) && U32At(data, 24) == Ok(h[6])
    ensures U32At(data, 28) == Ok(h[7]) && U32At(data, 44) == Ok(h[11]) && U32At(data, 48) == Ok(h[12])
    ensures U32At(data, 52) == Ok(h[13])
  {
    hide U32At, Words;
    assert h[..14] == h;
    WordsOccur(data, 0, h, 14);
    assert forall i :: 0 <= i < 14 ==> U32At(data, 0 + 4 * i) == Ok(h[i]);
    assert U32At(data, 0 + 4 * 0) == Ok(h[0]) && U32At(data, 0 + 4 * 1) == Ok(h[1]) && U32At(data, 0 + 4 * 2) == Ok(h[2]);
    assert U32At(data, 0 + 4 * 3) == Ok(h[3]) && U32At(data, 0 + 4 * 5) == Ok(h[5]) && U32At(data, 0 + 4 * 6) == Ok(h[6]);
    assert U32At(data, 0 + 4 * 7) == Ok(h[7]) && U32At(data, 0 + 4 * 11) == Ok(h[11]);
    assert U32At(data, 0 + 4 * 12) == Ok(h[12]) && U32At(data, 0 + 4 * 13) == Ok(h[13]);
  }

  // ---- finding a child by name -------------------------------------------

  /** Binary search for `key` in `m.byName[lo..hi]`. */
  function Search(m: Manifest, key: seq<int>, lo: nat, hi: nat): (r: Option<nat>)
    requires lo <= hi <= |m.byName|
    ensures r.Some? ==> lo <= r.value < hi && m.SortKey(m.byName[r.value]) == key
    decreases hi - lo
  {
    if lo == hi then None
    else
      var mid := (lo + hi) / 2;
      var here := m.SortKey(m.byName[mid]);
      if LexLess(here, key) then Search(m, key, mid + 1, hi)
      else if LexLess(key, here) then Search(m, key, lo, mid)
      else
        LexTotal(here, key);
        Some(mid)
  }

  function ChildByName(m: Manifest, dir: nat, name: Text): Option<nat> {
    match Search(m, [dir] + name, 0, |m.byName|)
    case None => None
    case Some(i) => Some(m.byName[i])
  }

  lemma {:induction false} SearchFinds(m: Manifest, key: seq<int>, lo: nat, hi: nat, k: nat)
    requires lo <= k < hi <= |m.byName| && SortedBy(m.byName, KeyOf(m)) && m.SortKey(m.byName[k]) == key
    ensures Search(m, key, lo, hi).Some?
    decreases hi - lo
  {
    hide LexLess, SortedBy, KeyOf, Manifest.SortKey;
    var mid := (lo + hi) / 2;
    var here := m.SortKey(m.byName[mid]);
    LexTotal(here, key);
    KeysInOrder(m, k, mid);
    if LexLess(here, key) {
      SearchFinds(m, key, mid + 1, hi, k);
    } else if LexLess(key, here) {
      SearchFinds(m, key, lo, mid, k);
    }
  }

  lemma KeysInOrder(m: Manifest, i: nat, j: nat)
    requires i < |m.byName| && j < |m.byName| && SortedBy(m.byName, KeyOf(m))
    ensures i < j ==> !LexLess(m.SortKey(m.byName[j]), m.SortKey(m.byName[i]))
    ensures j < i ==> !LexLess(m.SortKey(m.byName[i]), m.SortKey(m.byName[j]))
  {
    hide LexLess;
    assert KeyOf(m)(m.byName[i]) == m.SortKey(m.byName[i]) && KeyOf(m)(m.byName[j]) == m.SortKey(m.byName[j]);
  }

  ghost predicate IsChild(m: Manifest, dir: nat, name: Text, c: nat) {
    dir != NO_NODE && c < |m.nodes| && m.nodes[c].parent == dir && m.Name(c) == name
  }

  /** Binary search over the sorted index answers as a scan of all nodes
      would: with a child of that parent and name, or with none if there is
      none. */
  lemma ChildByNameIsAScan(m: Manifest, dir: nat, name: Text)
    requires Valid(m)
    ensures ChildByName(m, dir, name).Some? ==> IsChild(m, dir, name, ChildByName(m, dir, name).value)
    ensures ChildByName(m, dir, name).None? ==> forall c: nat :: !IsChild(m, dir, name, c)
  {
    var key := [dir] + name;
    match Search(m, key, 0, |m.byName|)
    case Some(i) =>
      var c := m.byName[i];
      assert c in m.byName;
      assert m.SortKey(c)[0] == key[0] && m.SortKey(c)[1..] == key[1..] == name;
    case None =>
      forall c: nat ensures !IsChild(m, dir, name, c) {
        if IsChild(m, dir, name, c) {
          assert c in m.byName;
          var k :| 0 <= k < |m.byName| && m.byName[k] == c;
          assert m.SortKey(c) == key;
          SearchFinds(m, key, 0, |m.byName|, k);
        }
      }
  }

  /** Siblings have different names. */
  ghost predicate DistinctSiblings(m: Manifest) {
    forall i, j :: 0 <= i < j < |m.nodes| && m.nodes[i].parent == m.nodes[j].parent != NO_NODE ==> m.Name(i) != m.Name(j)
  }

  lemma ChildByNameIsUnique(m: Manifest, c: nat)
    requires Valid(m) && DistinctSiblings(m) && c < |m.nodes| && m.nodes[c].parent != NO_NODE
    ensures ChildByName(m, m.nodes[c].parent, m.Name(c)) == Some(c)
  {
    hide ChildByName;
    ChildByNameIsAScan(m, m.nodes[c].parent, m.Name(c));
    assert IsChild(m, m.nodes[c].parent, m.Name(c), c);
  }

  // ---- sibling lists -----------------------------------------------------

  /** The nodes a sibling walk visits, at most `remaining` of them. */
  function WalkFrom(m: Manifest, next: u32, remaining: nat): seq<nat>
    decreases remaining
  {
    if next == 0 || next == NO_NODE || remaining == 0 || next >= |m.nodes| then []
    else [next] + WalkFrom(m, m.nodes[next].nextSibling, remaining - 1)
  }

  function Children(m: Manifest, dir: nat): seq<nat> {
    if dir < |m.nodes| then
      WalkFrom(m, m.nodes[dir].firstChild, if m.nodes[dir].IsDir() then m.nodes[dir].countOrSize else 0)
    else []
  }

  /** The `Children` iterator. */
  class ChildIter {
    const manifest: Manifest
    var next: u32
    var remaining: u32

    /** What is still to be yielded. */
    ghost function Rest(): seq<nat>
      reads this
    {
      WalkFrom(manifest, next, remaining)
    }

    constructor (m: Manifest, dir: nat)
      ensures manifest == m && Rest() == Children(m, dir)
    {
      manifest := m;
      if dir < |m.nodes| {
        next := m.nodes[dir].firstChild;
        remaining := if m.nodes[dir].IsDir() then m.nodes[dir].countOrSize else 0;
      } else {
        next, remaining := 0, 0;
      }
    }

    method Next() returns (r: Option<nat>)
      modifies this
      ensures r.None? ==> old(Rest()) == [] && Rest() == []
      ensures r.Some? ==> old(Rest()) == [r.value] + Rest()
    {
      if next == 0 || next == NO_NODE || remaining == 0 {
        return None;
      }
      var cur := next;
      remaining := remaining - 1;
      if cur >= |manifest.nodes| {
        next := 0;
        return None;
      }
      next := manifest.nodes[cur].nextSibling;
      r := Some(cur);
    }
  }

  // ---- paths -------------------------------------------------------------

  predicate HasParent(m: Manifest, idx: nat) {
    idx < |m.nodes| && m.nodes[idx].parent != 0xffff_ffff
  }

  /** The node a climb from `idx` stands on after `k` steps up; none once it is
      over. */
  function Visit(m: Manifest, idx: nat, k: nat): Option<nat>
    decreases k
  {
    if !HasParent(m, idx) then None
    else if k == 0 then Some(idx)
    else Visit(m, m.nodes[idx].parent, k - 1)
  }

  /** The names from below the root down to `idx`, for a climb that is over
      within `n` steps. */
  function Components(m: Manifest, idx: nat, n: nat): seq<Text>
    requires Visit(m, idx, n).None?
    decreases n
  {
    if !HasParent(m, idx) then [] else Components(m, m.nodes[idx].parent, n - 1) + [m.Name(idx)]
  }

  function Join(parts: seq<Text>): Text {
    if parts == [] then []
    else if |parts| == 1 then parts[0]
    else parts[0] + [SLASH] + Join(parts[1..])
  }

  /** `path`: climbs to the root, then joins the names in reverse. The loop is
      unbounded; it ends within `n` steps if the climb does. */
  method Path(m: Manifest, idx: nat, ghost n: nat) returns (r: Text)
    requires Visit(m, idx, n).None?
    ensures r == Join(Components(m, idx, n))
  {
    var parts: seq<Text> := [];
    var cur: nat := idx;
    ghost var left := n;
    while cur < |m.nodes|
      invariant Visit(m, cur, left).None?
      invariant Components(m, idx, n) == Components(m, cur, left) + Reversed(parts)
      decreases left
    {
      if m.nodes[cur].parent == NO_NODE {
        break;
      }
      var name := m.Name(cur);
      assert Reversed(parts + [name]) == [name] + Reversed(parts);
      assert Components(m, cur, left) == Components(m, m.nodes[cur].parent, left - 1) + [name];
      parts := parts + [name];
      cur := m.nodes[cur].parent;
      left := left - 1;
    }
    assert Components(m, idx, n) == Reversed(parts);
    r := Join(Reversed(parts));
  }

  // ---- exactly when a climb ends -----------------------------------------

  lemma {:induction false} VisitOn(m: Manifest, idx: nat, i: nat, k: nat)
    requires Visit(m, idx, i).Some?
    ensures Visit(m, idx, i + k) == Visit(m, Visit(m, idx, i).value, k)
    decreases i
  {
    if i > 0 {
      VisitOn(m, m.nodes[idx].parent, i - 1, k);
    }
  }

  /** A climb that is over stays over. */
  lemma {:induction false} VisitOver(m: Manifest, idx: nat, i: nat, k: nat)
    requires i <= k && Visit(m, idx, i).None?
    ensures Visit(m, idx, k).None?
    decreases i
  {
    if i > 0 && HasParent(m, idx) {
      VisitOver(m, m.nodes[idx].parent, i - 1, k - 1);
    }
  }

  lemma {:induction false} CycleNeverEnds(m: Manifest, idx: nat, period: nat, k: nat)
    requires period > 0 && Visit(m, idx, period) == Some(idx)
    ensures Visit(m, idx, k).Some?
    decreases k
  {
    if k <= period {
      if Visit(m, idx, k).None? {
        VisitOver(m, idx, k, period);
      }
    } else {
      VisitOn(m, idx, period, k - period);
      CycleNeverEnds(m, idx, period, k - period);
    }
  }

  ghost predicate ClimbEnds(m: Manifest, idx: nat) {
    exists n: nat :: Visit(m, idx, n).None?
  }

  /** The climb comes back to a node it has been on. */
  ghost predicate ComesBack(m: Manifest, idx: nat) {
    exists i: nat, j: nat :: i < j && Visit(m, idx, i).Some? && Visit(m, idx, i) == Visit(m, idx, j)
  }

  /** `path` ends exactly when the climb never comes back to a node, and then
      within as many steps as there are nodes. */
  lemma PathEndsIff(m: Manifest, idx: nat)
    ensures ClimbEnds(m, idx) <==> !ComesBack(m, idx)
    ensures ClimbEnds(m, idx) <==> Visit(m, idx, |m.nodes|).None?
  {
    if ComesBack(m, idx) {
      var i: nat, j: nat :| i < j && Visit(m, idx, i).Some? && Visit(m, idx, i) == Visit(m, idx, j);
      BackNeverEnds(m, idx, i, j);
    } else if Visit(m, idx, |m.nodes|).Some? {
      LongClimbComesBack(m, idx);
    }
  }

  lemma BackNeverEnds(m: Manifest, idx: nat, i: nat, j: nat)
    requires i < j && Visit(m, idx, i).Some? && Visit(m, idx, i) == Visit(m, idx, j)
    ensures !ClimbEnds(m, idx)
  {
    var x := Visit(m, idx, i).value;
    VisitOn(m, idx, i, j - i);
    forall n: nat ensures Visit(m, idx, n).Some? {
      if n >= i {
        CycleNeverEnds(m, x, j - i, n - i);
        VisitOn(m, idx, i, n - i);
      } else if Visit(m, idx, n).None? {
        VisitOver(m, idx, n, i);
      }
    }
  }

  lemma {:induction false} VisitInRange(m: Manifest, idx: nat, k: nat)
    requires Visit(m, idx, k).Some?
    ensures Visit(m, idx, k).value < |m.nodes|
    decreases k
  {
    if k > 0 {
      VisitInRange(m, m.nodes[idx].parent, k - 1);
    }
  }

  lemma LongClimbComesBack(m: Manifest, idx: nat)
    requires Visit(m, idx, |m.nodes|).Some?
    ensures ComesBack(m, idx)
  {
    var n := |m.nodes|;
    forall k: nat | k <= n ensures Visit(m, idx, k).Some? && Visit(m, idx, k).value < n {
      if Visit(m, idx, k).None? {
        VisitOver(m, idx, k, n);
      }
      VisitInRange(m, idx, k);
    }
    var stops: seq<nat> := seq(n + 1, k requires 0 <= k <= n => Visit(m, idx, k).value);
    if Distinct(stops) {
      Pigeonhole(stops, n);
    }
    var i, j :| 0 <= i < j < |stops| && stops[i] == stops[j];
    assert Visit(m, idx, i) == Visit(m, idx, j);
  }

  /** A buffer of one node that is its own parent. */
  function LoopHeader(sum: u32): (h: seq<nat>)
    ensures |h| == 14
  {
    [3, 0, 0, 1, 0, 0x8000, 85, 1, 0, 0, 0, 0, 0, sum]
  }

  function LoopBuffer(sum: u32): seq<byte> {
    Words(LoopHeader(sum)) + (EncodeNodes([Node(0, 0, 0, 0, 0, 0, 0)]) + [0])
  }

  lemma LoopChecksum(sum: u32)
    ensures |LoopBuffer(sum)| == 85 && Checksum(LoopBuffer(sum)) == Checksum(LoopBuffer(0))
  {
    hide AdlerFold, EncodeNodes, ToLe, Words;
    var a, b := LoopBuffer(sum), LoopBuffer(0);
    var same := [3, 0, 0, 1, 0, 0x8000, 85, 1, 0, 0, 0, 0, 0];
    assert LoopHeader(sum) == same + [sum] && LoopHeader(0) == same + [0];
    WordsSnoc(same, sum);
    WordsSnoc(same, 0);
    assert |Words(same)| == 52;
    assert a[..0x30] == Words(same)[..0x30] == b[..0x30];
    assert a[0x38..] == EncodeNodes([Node(0, 0, 0, 0, 0, 0, 0)]) + [0] == b[0x38..];
  }

  lemma {:induction false} AdlerFits(data: seq<byte>)
    ensures AdlerFold((0, 0), data).0 < 65_521 && AdlerFold((0, 0), data).1 < 65_521
  {
    if data != [] {
      AdlerFits(data[..|data| - 1]);
    }
  }

  /** The parser accepts a node that is its own parent, and `path` of that node
      never ends. */
  lemma SelfParentParses() returns (data: seq<byte>, m: Manifest)
    ensures ParseManifest(data) == Ok(m) && |m.nodes| == 1 && m.nodes[0].parent == 0 && !ClimbEnds(m, 0)
  {
    hide ParseManifest, Words, EncodeNodes, Checksum, Occurs, SumsTo;
    LoopChecksum(0);
    var sum := LoopSum();
    LoopChecksum(sum);
    data := LoopBuffer(sum);
    var h := LoopHeader(sum);
    var nodes := [Node(0, 0, 0, 0, 0, 0, 0)];
    var table: seq<byte> := [0];
    m := Manifest(3, 0, 0, 0, 0, nodes, table, [0], [0]);
    assert table[0..] == table;
    WholeOccurs(Words(h), EncodeNodes(nodes) + table);
    OccursSplit(data, 0, Words(h), EncodeNodes(nodes) + table);
    OccursSplit(data, 56, EncodeNodes(nodes), table);
    assert NodeInRange(m, 0);
    ChecksumIsSums(data, sum);
    assert LaidOut(data, h, m);
    ParseIffLaidOut(data, h, m);
    assert Visit(m, 0, 1) == Visit(m, 0, 0) == Some(0);
    BackNeverEnds(m, 0, 0, 1);
  }

  lemma WholeOccurs(a: seq<byte>, b: seq<byte>)
    ensures Occurs(a + b, 0, a + b)
  {
  }

  lemma LoopSum() returns (sum: u32)
    requires |LoopBuffer(0)| == 85
    ensures sum == Checksum(LoopBuffer(0))
  {
    var data := LoopBuffer(0);
    AdlerFits(data[..0x30] + [0, 0, 0, 0, 0, 0, 0, 0] + data[0x38..]);
    sum := Checksum(data);
  }

  /** A path cut at its slashes; the empty path has no components. */
  function Split(path: Text): seq<Text> {
    if path == [] then [] else SplitFrom(path, [])
  }

  function SplitFrom(path: Text, head: Text): (r: seq<Text>)
    ensures r != []
  {
    if path == [] then [head]
    else if path[0] == SLASH then [head] + SplitFrom(path[1..], [])
    else SplitFrom(path[1..], head + [path[0]])
  }

  lemma {:induction false} SplitName(name: Text, head: Text, rest: Text)
    requires SLASH !in name
    ensures SplitFrom(name + rest, head) == SplitFrom(rest, head + name)
  {
    if name == [] {
      assert name + rest == rest && head + name == head;
    } else {
      assert (name + rest)[1..] == name[1..] + rest;
      SplitName(name[1..], head + [name[0]], rest);
      assert head + [name[0]] + name[1..] == head + name;
    }
  }

  ghost predicate Plain(name: Text) {
    name != [] && SLASH !in name
  }

  /** Splitting undoes joining. */
  lemma {:induction false} SplitJoin(parts: seq<Text>)
    requires forall i :: 0 <= i < |parts| ==> Plain(parts[i])
    ensures Split(Join(parts)) == parts
  {
    if |parts| == 1 {
      SplitName(parts[0], [], []);
      assert parts[0] + [] == parts[0] && [] + parts[0] == parts[0];
    } else if |parts| > 1 {
      var rest := Join(parts[1..]);
      SplitJoin(parts[1..]);
      JoinNotEmpty(parts[1..]);
      assert Join(parts) == parts[0] + ([SLASH] + rest);
      SplitName(parts[0], [], [SLASH] + rest);
      assert [] + parts[0] == parts[0] && ([SLASH] + rest)[1..] == rest;
      assert parts == [parts[0]] + parts[1..];
    }
  }

  lemma JoinNotEmpty(parts: seq<Text>)
    requires parts != [] && Plain(parts[0])
    ensures Join(parts) != []
  {
  }

  /** Follows names downward from `dir`. */
  function Resolve(m: Manifest, dir: nat, names: seq<Text>): Option<nat> {
    if names == [] then Some(dir)
    else
      match Resolve(m, dir, names[..|names| - 1])
      case None => None
      case Some(d) => ChildByName(m, d, names[|names| - 1])
  }

  lemma {:induction false} ComponentsPlain(m: Manifest, idx: nat, n: nat)
    requires Visit(m, idx, n).None? && forall i :: 0 <= i < |m.nodes| && m.nodes[i].parent != NO_NODE ==> Plain(m.Name(i))
    ensures forall i :: 0 <= i < |Components(m, idx, n)| ==> Plain(Components(m, idx, n)[i])
    decreases n
  {
    if HasParent(m, idx) {
      ComponentsPlain(m, m.nodes[idx].parent, n - 1);
    }
  }

  lemma {:induction false} RootIsFirst(nodes: seq<Node>, i: nat, k: nat)
    requires i <= k < |nodes| && nodes[k].parent == NO_NODE && forall j :: i <= j < k ==> nodes[j].parent != NO_NODE
    ensures RootFrom(nodes, i) == k
    decreases k - i
  {
    if i < k {
      RootIsFirst(nodes, i + 1, k);
    }
  }

  /** Only one node has no parent. */
  ghost predicate OneRoot(m: Manifest) {
    exists k :: 0 <= k < |m.nodes| && m.nodes[k].parent == NO_NODE
                && forall j :: 0 <= j < |m.nodes| && j != k ==> m.nodes[j].parent != NO_NODE
  }

  lemma {:induction false} ResolveComponents(m: Manifest, idx: nat, n: nat)
    requires Valid(m) && DistinctSiblings(m) && OneRoot(m) && Visit(m, idx, n).None? && idx < |m.nodes|
    ensures Resolve(m, m.Root(), Components(m, idx, n)) == Some(idx)
    decreases n
  {
    hide ChildByName, DistinctSiblings, Manifest.Name, SortedBy;
    if m.nodes[idx].parent == NO_NODE {
      RootIsFirst(m.nodes, 0, idx);
    } else {
      var p := m.nodes[idx].parent;
      assert NodeInRange(m, idx);
      ResolveComponents(m, p, n - 1);
      ChildByNameIsUnique(m, idx);
      var cs := Components(m, idx, n);
      assert cs[..|cs| - 1] == Components(m, p, n - 1);
    }
  }

  /** A node's path, taken apart and looked up name by name from the root,
      leads back to the node. */
  lemma PathResolves(m: Manifest, idx: nat, n: nat)
    requires Valid(m) && DistinctSiblings(m) && OneRoot(m) && Visit(m, idx, n).None? && idx < |m.nodes|
    requires forall i :: 0 <= i < |m.nodes| && m.nodes[i].parent != NO_NODE ==> Plain(m.Name(i))
    ensures Resolve(m, m.Root(), Split(Join(Components(m, idx, n)))) == Some(idx)
  {
    hide Split, Join, Resolve;
    ComponentsPlain(m, idx, n);
    SplitJoin(Components(m, idx, n));
    ResolveComponents(m, idx, n);
  }
}
