/** The virtual tree the frontends serve (src/tree.rs): listing, lookup and
    parents, over a fixed index and fixed parsed manifests. */
module Trees {
  import opened Wrappers
  import opened Seqs
  import opened Bytes
  import opened Text
  import opened Depots
  import opened Manifests

  datatype Key =
    | Root
    | DepotDir(depot: u32)
    | LatestLink(depot: u32)
    | ByDate(depot: u32)
    | DateLinkTo(blob: BlobId)
    | Version(blob: BlobId)
    | NodeOf(blob: BlobId, idx: nat)

  datatype Kind = Dir | File | Symlink

  datatype Listed = Listed(name: Text, key: Key, kind: Kind)

  datatype TreeError = NotADirectory | Read(error: FormatError)

  /** What the tree reads: the blobs, the depots in ascending order of id, and
      each blob's manifest or why it does not parse. */
  datatype World = World(
    entries: seq<BlobEntry>,
    depotIds: seq<u32>,
    depots: map<u32, Depot>,
    manifests: seq<Result<Manifest, FormatError>>)
  {
    function ManifestOf(b: BlobId): Result<Manifest, FormatError> {
      if b < |manifests| then manifests[b] else Err(Malformed("no such blob"))
    }

    function LatestOf(d: u32): Option<BlobId> {
      if d in depots && forall i :: 0 <= i < |depots[d].blobs| ==> depots[d].blobs[i] < |entries|
      then Latest(entries, depots[d].blobs)
      else None
    }
  }

  /** Key for a manifest node, mapping the root node to `Version`. */
  function NodeKey(b: BlobId, m: Manifest, idx: nat): Key {
    if idx == m.Root() then Version(b) else NodeOf(b, idx)
  }

  function NodeIndex(key: Key, m: Manifest): Option<nat> {
    match key
    case Version(_) => Some(m.Root())
    case NodeOf(_, idx) => Some(idx)
    case _ => None
  }

  function Parent(w: World, key: Key): Key {
    match key
    case Version(b) => if b < |w.entries| then DepotDir(w.entries[b].depot) else Root
    case NodeOf(b, i) =>
      (match w.ManifestOf(b)
       case Err(_) => Version(b)
       case Ok(m) => if i < |m.nodes| then NodeKey(b, m, m.nodes[i].parent) else Version(b))
    case _ => Root
  }

  function KindOf(m: Manifest, c: nat): Kind {
    if c < |m.nodes| && m.nodes[c].IsDir() then Dir else File
  }

  function NodeListing(b: BlobId, m: Manifest, cs: seq<nat>): (r: seq<Listed>)
    ensures |r| == |cs|
    ensures forall i :: 0 <= i < |cs| ==> r[i] == Listed(m.Name(cs[i]), NodeKey(b, m, cs[i]), KindOf(m, cs[i]))
  {
    seq(|cs|, i requires 0 <= i < |cs| => Listed(m.Name(cs[i]), NodeKey(b, m, cs[i]), KindOf(m, cs[i])))
  }

  /** The listing of a version directory or of a manifest node. */
  method ListNode(w: World, key: Key) returns (r: Result<seq<Listed>, TreeError>)
    requires key.Version? || key.NodeOf?
    ensures r == NodeEntries(w, key)
  {
    var m' := w.ManifestOf(key.blob);
    if m'.Err? {
      return Err(Read(m'.error));
    }
    var m := m'.value;
    var dir := NodeIndex(key, m).value;
    if dir >= |m.nodes| || !m.nodes[dir].IsDir() {
      return Err(NotADirectory);
    }
    var it := new ChildIter(m, dir);
    var out: seq<Listed> := [];
    ghost var seen: seq<nat> := [];
    ghost var all := Children(m, dir);
    var c := it.Next();
    while c.Some?
      invariant it.manifest == m && out == NodeListing(key.blob, m, seen)
      invariant c.Some? ==> all == seen + [c.value] + it.Rest()
      invariant c.None? ==> all == seen
      decreases |all| - |seen|
    {
      out := out + [Listed(m.Name(c.value), NodeKey(key.blob, m, c.value), KindOf(m, c.value))];
      seen := seen + [c.value];
      c := it.Next();
    }
    r := Ok(out);
  }

  function NodeEntries(w: World, key: Key): Result<seq<Listed>, TreeError>
    requires key.Version? || key.NodeOf?
  {
    match w.ManifestOf(key.blob)
    case Err(e) => Err(Read(e))
    case Ok(m) =>
      var dir := NodeIndex(key, m).value;
      if dir < |m.nodes| && m.nodes[dir].IsDir() then Ok(NodeListing(key.blob, m, Children(m, dir)))
      else Err(NotADirectory)
  }

  function DepotEntries(w: World, d: u32): seq<Listed> {
    if d !in w.depots then []
    else
      var dep := w.depots[d];
      var n := Min(|dep.names|, |dep.blobs|);
      seq(n, i requires 0 <= i < n => Listed(dep.names[i].0, Version(dep.blobs[i]), Dir))
      + (if w.LatestOf(d).Some? then [Listed(Ascii("latest"), LatestLink(d), Symlink)] else [])
      + [Listed(Ascii("by-date"), ByDate(d), Dir)]
  }

  function DateEntries(w: World, d: u32): seq<Listed> {
    if d !in w.depots then []
    else
      var dep := w.depots[d];
      seq(|dep.dateOrder|, i requires 0 <= i < |dep.dateOrder| =>
        var link := dep.DateLinkOf(dep.dateOrder[i]);
        Listed(if link.Some? then link.value else [], DateLinkTo(dep.dateOrder[i]), Symlink))
  }

  function RootEntries(w: World): seq<Listed> {
    seq(|w.depotIds|, i requires 0 <= i < |w.depotIds| => Listed(Dec(w.depotIds[i]), DepotDir(w.depotIds[i]), Dir))
  }

  /** `entries`: a directory's children. */
  function Entries(w: World, key: Key): Result<seq<Listed>, TreeError> {
    match key
    case Root => Ok(RootEntries(w))
    case DepotDir(d) => Ok(DepotEntries(w, d))
    case ByDate(d) => Ok(DateEntries(w, d))
    case Version(_) => NodeEntries(w, key)
    case NodeOf(_, _) => NodeEntries(w, key)
    case _ => Err(NotADirectory)
  }

  /** `str::parse::<u32>`: an optional plus sign and at least one digit. */
  function ParseU32(t: Text): Option<u32> {
    var digits := if |t| > 0 && t[0] == 43 then t[1..] else t;
    if digits != [] && Digits(digits) && DecValue(digits) < U32_LIMIT
    then Some(DecValue(digits))
    else None
  }

  /** `lookup`: one child by name. */
  function Lookup(w: World, parent: Key, name: Text): Result<Option<Key>, TreeError> {
    match parent
    case Root =>
      (match ParseU32(name)
       case Some(d) => if d in w.depots then Ok(Some(DepotDir(d))) else Ok(None)
       case None => Ok(None))
    case DepotDir(d) =>
      if name == Ascii("latest") then Ok(if w.LatestOf(d).Some? then Some(LatestLink(d)) else None)
      else if name == Ascii("by-date") then Ok(Some(ByDate(d)))
      else if d !in w.depots then Ok(None)
      else
        (match w.depots[d].LookupName(name)
         case Some(b) => Ok(Some(Version(b)))
         case None => Ok(None))
    case ByDate(d) =>
      if d !in w.depots then Ok(None)
      else
        (match w.depots[d].LookupDateLink(name)
         case Some(b) => Ok(Some(DateLinkTo(b)))
         case None => Ok(None))
    case LatestLink(_) => Ok(None)
    case DateLinkTo(_) => Ok(None)
    case _ =>
      (match w.ManifestOf(parent.blob)
       case Err(e) => Err(Read(e))
       case Ok(m) =>
         match ChildByName(m, NodeIndex(parent, m).value, name)
         case None => Ok(None)
         case Some(c) => Ok(Some(NodeKey(parent.blob, m, c))))
  }

  // ---- listings and lookups agree ----------------------------------------

  /** Every listed name looks up to the listed key, nothing else looks up to
      anything, and no name or key is listed twice. */
  ghost predicate Agrees(w: World, key: Key, es: seq<Listed>) {
    && (forall i :: 0 <= i < |es| ==> Lookup(w, key, es[i].name) == Ok(Some(es[i].key)))
    && (forall name, k :: Lookup(w, key, name) == Ok(Some(k)) ==> exists i :: 0 <= i < |es| && es[i].name == name && es[i].key == k)
    && (forall i, j :: 0 <= i < j < |es| ==> es[i].name != es[j].name && es[i].key != es[j].key)
  }

  /** The sibling list of `dir` holds exactly the nodes whose parent it is,
      each once. */
  ghost predicate SiblingsMatch(m: Manifest, dir: nat) {
    && Distinct(Children(m, dir))
    && forall c: nat :: c in Children(m, dir) <==> c < |m.nodes| && m.nodes[c].parent == dir
  }

  /** The key under which directory node `dir` is reached. */
  ghost predicate IsDirKey(w: World, key: Key, m: Manifest, dir: nat) {
    && (key.Version? || key.NodeOf?)
    && w.ManifestOf(key.blob) == Ok(m) && key == (if dir == m.Root() then Version(key.blob) else NodeOf(key.blob, dir))
    && dir < |m.nodes| && dir != NO_NODE && m.nodes[dir].IsDir()
  }

  lemma {:induction false} WalkSkipsZero(m: Manifest, next: u32, remaining: nat)
    ensures 0 !in WalkFrom(m, next, remaining)
    decreases remaining
  {
    if next != 0 && next < |m.nodes| && remaining > 0 {
      WalkSkipsZero(m, m.nodes[next].nextSibling, remaining - 1);
    }
  }

  /** Node `c` is the one that its name finds in `dir`. */
  ghost predicate Found(m: Manifest, dir: nat, c: nat) {
    ChildByName(m, dir, m.Name(c)) == Some(c)
  }

  /** The sibling list holds exactly the nodes that names find, each once. */
  ghost predicate ListsFound(m: Manifest, dir: nat) {
    && Distinct(Children(m, dir))
    && forall c: nat :: c in Children(m, dir) <==> Found(m, dir, c)
  }

  lemma FoundIsChild(m: Manifest, dir: nat, c: nat)
    requires Valid(m) && Found(m, dir, c)
    ensures c < |m.nodes| && m.nodes[c].parent == dir
  {
    hide ChildByName, Valid;
    ChildByNameIsAScan(m, dir, m.Name(c));
  }

  lemma ChildrenSkipZero(m: Manifest, dir: nat)
    ensures 0 !in Children(m, dir)
  {
    if dir < |m.nodes| {
      WalkSkipsZero(m, m.nodes[dir].firstChild, if m.nodes[dir].IsDir() then m.nodes[dir].countOrSize else 0);
    }
  }

  function FoundKey(b: BlobId, m: Manifest, dir: nat, name: Text): Option<Key> {
    match ChildByName(m, dir, name)
    case None => None
    case Some(c) => Some(NodeKey(b, m, c))
  }

  /** What `entries` and `lookup` answer for a directory node. */
  lemma DirEntries(w: World, key: Key, m: Manifest, dir: nat)
    requires IsDirKey(w, key, m, dir)
    ensures Entries(w, key) == Ok(NodeListing(key.blob, m, Children(m, dir))) && NodeIndex(key, m) == Some(dir)
    ensures forall name :: Lookup(w, key, name) == Ok(FoundKey(key.blob, m, dir, name))
  {
    hide ChildByName, Children;
  }

  /** `parent` leads back from everything listed. */
  ghost predicate LeadsBack(w: World, key: Key, es: seq<Listed>) {
    forall i :: 0 <= i < |es| ==> Parent(w, es[i].key) == key
  }

  lemma ListsFoundAgrees(w: World, key: Key, m: Manifest, dir: nat)
    requires IsDirKey(w, key, m, dir) && Valid(m) && ListsFound(m, dir)
    ensures Agrees(w, key, NodeListing(key.blob, m, Children(m, dir)))
    ensures LeadsBack(w, key, NodeListing(key.blob, m, Children(m, dir)))
  {
    hide ChildByName, Children, Valid, Lookup;
    var cs := Children(m, dir);
    var es := NodeListing(key.blob, m, cs);
    DirEntries(w, key, m, dir);
    ChildrenSkipZero(m, dir);
    RootMeaning(m.nodes, 0);
    forall i | 0 <= i < |cs|
      ensures Found(m, dir, cs[i]) && cs[i] < |m.nodes| && m.nodes[cs[i]].parent == dir && cs[i] != m.Root()
    {
      assert cs[i] in cs;
      FoundIsChild(m, dir, cs[i]);
    }
    forall name, k | Lookup(w, key, name) == Ok(Some(k))
      ensures exists i :: 0 <= i < |es| && es[i].name == name && es[i].key == k
    {
      ChildByNameIsAScan(m, dir, name);
      var c := ChildByName(m, dir, name).value;
      assert Found(m, dir, c);
      var i :| 0 <= i < |cs| && cs[i] == c;
      assert es[i].name == name && es[i].key == k;
    }
    AgreeingKeysDiffer(w, key, es);
  }

  lemma KeysTellNodes(b: BlobId, m: Manifest, c: nat, d: nat)
    requires NodeKey(b, m, c) == NodeKey(b, m, d)
    ensures c == d
  {
  }

  lemma ListedIsFound(w: World, key: Key, m: Manifest, dir: nat, i: nat)
    requires IsDirKey(w, key, m, dir) && Agrees(w, key, NodeListing(key.blob, m, Children(m, dir))) && i < |Children(m, dir)|
    ensures Found(m, dir, Children(m, dir)[i])
  {
    hide ChildByName, Children, Lookup, NodeKey;
    var c, es := Children(m, dir)[i], NodeListing(key.blob, m, Children(m, dir));
    DirEntries(w, key, m, dir);
    assert Lookup(w, key, es[i].name) == Ok(Some(es[i].key));
    KeysTellNodes(key.blob, m, c, ChildByName(m, dir, m.Name(c)).value);
  }

  lemma FoundIsListed(w: World, key: Key, m: Manifest, dir: nat, c: nat)
    requires IsDirKey(w, key, m, dir) && Agrees(w, key, NodeListing(key.blob, m, Children(m, dir))) && Found(m, dir, c)
    ensures c in Children(m, dir)
  {
    hide ChildByName, Children, Lookup, NodeKey;
    var cs, es := Children(m, dir), NodeListing(key.blob, m, Children(m, dir));
    DirEntries(w, key, m, dir);
    assert Lookup(w, key, m.Name(c)) == Ok(Some(NodeKey(key.blob, m, c)));
    var i :| 0 <= i < |es| && es[i].name == m.Name(c) && es[i].key == NodeKey(key.blob, m, c);
    KeysTellNodes(key.blob, m, cs[i], c);
  }

  lemma AgreesListsFound(w: World, key: Key, m: Manifest, dir: nat)
    requires IsDirKey(w, key, m, dir) && Agrees(w, key, NodeListing(key.blob, m, Children(m, dir)))
    ensures ListsFound(m, dir)
  {
    hide Found, Children, Lookup, NodeKey;
    var cs := Children(m, dir);
    var es := NodeListing(key.blob, m, cs);
    forall c: nat | c in cs ensures Found(m, dir, c) {
      var i :| 0 <= i < |cs| && cs[i] == c;
      ListedIsFound(w, key, m, dir, i);
    }
    forall c: nat | Found(m, dir, c) ensures c in cs {
      FoundIsListed(w, key, m, dir, c);
    }
    forall i, j | 0 <= i < j < |cs| ensures cs[i] != cs[j] {
      assert es[i].key != es[j].key;
    }
  }

  /** In a directory `entries` and `lookup` agree exactly when the sibling list
      holds the nodes that names find, each once; `parent` then leads back. */
  lemma TreeAgreesIff(w: World, key: Key, m: Manifest, dir: nat)
    requires IsDirKey(w, key, m, dir) && Valid(m)
    ensures Entries(w, key) == Ok(NodeListing(key.blob, m, Children(m, dir)))
    ensures Agrees(w, key, NodeListing(key.blob, m, Children(m, dir))) <==> ListsFound(m, dir)
    ensures ListsFound(m, dir) ==> LeadsBack(w, key, NodeListing(key.blob, m, Children(m, dir)))
  {
    hide Agrees, ListsFound, LeadsBack, Children, Lookup, Valid;
    DirEntries(w, key, m, dir);
    if ListsFound(m, dir) {
      ListsFoundAgrees(w, key, m, dir);
    } else if Agrees(w, key, NodeListing(key.blob, m, Children(m, dir))) {
      AgreesListsFound(w, key, m, dir);
    }
  }

  /** With distinct sibling names, that is a sibling list matching the parent
      fields. */
  lemma MatchingSiblingsIff(m: Manifest, dir: nat)
    requires Valid(m) && DistinctSiblings(m) && dir != NO_NODE
    ensures ListsFound(m, dir) <==> SiblingsMatch(m, dir)
  {
    hide ChildByName, Children, Valid, DistinctSiblings;
    forall c: nat ensures Found(m, dir, c) <==> c < |m.nodes| && m.nodes[c].parent == dir {
      if Found(m, dir, c) {
        FoundIsChild(m, dir, c);
      } else if c < |m.nodes| && m.nodes[c].parent == dir {
        ChildByNameIsUnique(m, c);
      }
    }
  }

  /** In a directory whose sibling list matches the parent fields, `entries`
      and `lookup` agree completely, and `parent` leads back from every child. */
  lemma VersionTreeAgrees(w: World, key: Key, m: Manifest, dir: nat)
    requires IsDirKey(w, key, m, dir) && Valid(m) && DistinctSiblings(m) && SiblingsMatch(m, dir)
    ensures Entries(w, key) == Ok(NodeListing(key.blob, m, Children(m, dir)))
    ensures Agrees(w, key, NodeListing(key.blob, m, Children(m, dir)))
    ensures LeadsBack(w, key, NodeListing(key.blob, m, Children(m, dir)))
  {
    hide Agrees, ListsFound, LeadsBack, Children, Lookup, Valid, SiblingsMatch, DistinctSiblings;
    MatchingSiblingsIff(m, dir);
    TreeAgreesIff(w, key, m, dir);
  }

  /** What the index guarantees about one depot of the tree. */
  ghost predicate DepotIndexed(w: World, d: u32, ids: seq<BlobId>) {
    && d in w.depots && ids != [] && Ids(w.entries, ids) && DistinctVersions(w.entries, ids)
    && IsDepotOf(w.entries, ids, w.depots[d])
    && forall b :: b in ids ==> w.entries[b].depot == d
  }

  lemma DepotLookups(w: World, d: u32, ids: seq<BlobId>)
    requires DepotIndexed(w, d, ids)
    ensures d in w.depots
    ensures var dep := w.depots[d];
      && |dep.names| == |dep.blobs| && w.LatestOf(d).Some?
      && dep.LookupName(Ascii("latest")).None? && dep.LookupName(Ascii("by-date")).None?
      && Distinct(dep.blobs) && (forall b :: b in dep.blobs <==> b in ids)
      && (forall i :: 0 <= i < |dep.blobs| ==> dep.LookupName(dep.names[i].0) == Some(dep.blobs[i]))
      && (forall n :: dep.LookupName(n).Some? ==>
            exists i :: 0 <= i < |dep.blobs| && dep.names[i].0 == n && dep.blobs[i] == dep.LookupName(n).value)
  {
    hide NamesOf, LastWins, OrderedByLink, DistinctVersions, Sort;
    var dep := w.depots[d];
    BlobsAreIds(w.entries, ids, dep);
    LatestIsNewest(w.entries, ids, dep);
    ReservedNamesAreFree(w.entries, ids, dep);
    LookupsInvertNames(w.entries, ids, dep);
    ListingLengths(w.entries, ids, dep);
    forall i | 0 <= i < |dep.blobs| ensures dep.LookupName(dep.names[i].0) == Some(dep.blobs[i]) {
      assert dep.blobs[i] in ids && dep.NameOf(dep.blobs[i]) == Some(dep.names[i].0);
    }
    forall n | dep.LookupName(n).Some?
      ensures exists i :: 0 <= i < |dep.blobs| && dep.names[i].0 == n && dep.blobs[i] == dep.LookupName(n).value
    {
      var b := dep.LookupName(n).value;
      assert b in dep.blobs;
      var i :| 0 <= i < |dep.blobs| && dep.blobs[i] == b;
      assert dep.NameOf(b) == Some(n);
    }
  }

  lemma ListingLengths(entries: seq<BlobEntry>, ids: seq<BlobId>, d: Depot)
    requires Ids(entries, ids) && IsDepotOf(entries, ids, d)
    ensures |d.names| == |d.blobs| == |d.dateOrder|
  {
  }

  lemma DepotListing(w: World, d: u32)
    requires d in w.depots && |w.depots[d].names| == |w.depots[d].blobs| && w.LatestOf(d).Some?
    ensures var dep, es, n := w.depots[d], DepotEntries(w, d), |w.depots[d].blobs|;
      && |es| == n + 2 && es[n] == Listed(Ascii("latest"), LatestLink(d), Symlink)
      && es[n + 1] == Listed(Ascii("by-date"), ByDate(d), Dir)
      && forall i :: 0 <= i < n ==> es[i] == Listed(dep.names[i].0, Version(dep.blobs[i]), Dir)
  {
    hide World.LatestOf;
  }

  /** The depot's own names and the two fixed ones find their keys. */
  lemma DepotNamesFind(w: World, d: u32, ids: seq<BlobId>, i: nat)
    requires DepotIndexed(w, d, ids) && i < |DepotEntries(w, d)|
    ensures Lookup(w, DepotDir(d), DepotEntries(w, d)[i].name) == Ok(Some(DepotEntries(w, d)[i].key))
  {
    hide DepotIndexed, World.LatestOf, DepotEntries, Depot.LookupName;
    DepotLookups(w, d, ids);
    DepotListing(w, d);
    var dep, es, n := w.depots[d], DepotEntries(w, d), |w.depots[d].blobs|;
    assert Ascii("latest")[0] == 108 && Ascii("by-date")[0] == 98;
    if i < n {
      assert dep.LookupName(es[i].name) == Some(dep.blobs[i]);
    }
  }

  /** Nothing else does. */
  lemma DepotFindsListed(w: World, d: u32, ids: seq<BlobId>, name: Text, k: Key)
    requires DepotIndexed(w, d, ids) && Lookup(w, DepotDir(d), name) == Ok(Some(k))
    ensures exists i :: 0 <= i < |DepotEntries(w, d)| && DepotEntries(w, d)[i].name == name && DepotEntries(w, d)[i].key == k
  {
    hide DepotIndexed, World.LatestOf, DepotEntries, Depot.LookupName;
    DepotLookups(w, d, ids);
    DepotListing(w, d);
    var dep, es, n := w.depots[d], DepotEntries(w, d), |w.depots[d].blobs|;
    if name == Ascii("latest") {
      assert es[n].name == name && es[n].key == k;
    } else if name == Ascii("by-date") {
      assert es[n + 1].name == name && es[n + 1].key == k;
    } else {
      var i :| 0 <= i < n && dep.names[i].0 == name && dep.blobs[i] == dep.LookupName(name).value;
      assert es[i].name == name && es[i].key == k;
    }
  }

  lemma DepotKeysDiffer(w: World, d: u32, ids: seq<BlobId>)
    requires DepotIndexed(w, d, ids)
    ensures forall i, j :: 0 <= i < j < |DepotEntries(w, d)| ==> DepotEntries(w, d)[i].key != DepotEntries(w, d)[j].key
    ensures Entries(w, DepotDir(d)) == Ok(DepotEntries(w, d))
  {
    hide DepotIndexed, World.LatestOf, DepotEntries, Depot.LookupName;
    DepotLookups(w, d, ids);
    DepotListing(w, d);
  }

  /** `latest` and `by-date` sit beside the version names without clashing. */
  lemma DepotTreeAgrees(w: World, d: u32, ids: seq<BlobId>)
    requires DepotIndexed(w, d, ids)
    ensures Entries(w, DepotDir(d)) == Ok(DepotEntries(w, d)) && Agrees(w, DepotDir(d), DepotEntries(w, d))
  {
    hide DepotIndexed, DepotEntries, Lookup, Entries;
    var es := DepotEntries(w, d);
    forall i | 0 <= i < |es| ensures Lookup(w, DepotDir(d), es[i].name) == Ok(Some(es[i].key)) {
      DepotNamesFind(w, d, ids, i);
    }
    forall name, k | Lookup(w, DepotDir(d), name) == Ok(Some(k))
      ensures exists i :: 0 <= i < |es| && es[i].name == name && es[i].key == k
    {
      DepotFindsListed(w, d, ids, name, k);
    }
    DepotKeysDiffer(w, d, ids);
    AgreeingKeysDiffer(w, DepotDir(d), es);
  }

  /** When every listed name finds its own key, distinct keys mean distinct
      names. */
  lemma AgreeingKeysDiffer(w: World, key: Key, es: seq<Listed>)
    requires forall i :: 0 <= i < |es| ==> Lookup(w, key, es[i].name) == Ok(Some(es[i].key))
    requires forall i, j :: 0 <= i < j < |es| ==> es[i].key != es[j].key
    ensures forall i, j :: 0 <= i < j < |es| ==> es[i].name != es[j].name
  {
    hide Lookup;
    forall i, j | 0 <= i < j < |es| ensures es[i].name != es[j].name {
      assert Lookup(w, key, es[i].name) == Ok(Some(es[i].key));
      assert Lookup(w, key, es[j].name) == Ok(Some(es[j].key));
    }
  }

  /** The `by-date` directory. */
  lemma DateTreeAgrees(w: World, d: u32, ids: seq<BlobId>)
    requires DepotIndexed(w, d, ids)
    ensures Entries(w, ByDate(d)) == Ok(DateEntries(w, d)) && Agrees(w, ByDate(d), DateEntries(w, d))
  {
    hide NamesOf, LastWins, OrderedByLink, DistinctVersions, Sort, Depots.Indexed, ByVersion, Ids;
    var dep, es := w.depots[d], DateEntries(w, d);
    BlobsAreIds(w.entries, ids, dep);
    LookupsInvertNames(w.entries, ids, dep);
    DateOrderIsPermutation(w.entries, ids, dep);
    DistinctIds(w.entries, ids);
    Distinctness(ids, dep.dateOrder);
    assert forall b :: b in dep.dateOrder <==> b in ids by {
      assert forall b :: b in dep.dateOrder <==> b in multiset(dep.dateOrder);
      assert forall b :: b in ids <==> b in multiset(ids);
    }
    forall i | 0 <= i < |es| ensures Lookup(w, ByDate(d), es[i].name) == Ok(Some(es[i].key)) {
      assert dep.dateOrder[i] in ids;
    }
    forall name, k | Lookup(w, ByDate(d), name) == Ok(Some(k))
      ensures exists i :: 0 <= i < |es| && es[i].name == name && es[i].key == k
    {
      var b := dep.LookupDateLink(name).value;
      assert b in dep.dateOrder;
      var i :| 0 <= i < |dep.dateOrder| && dep.dateOrder[i] == b;
      assert es[i].name == name && es[i].key == k;
    }
    AgreeingKeysDiffer(w, ByDate(d), es);
  }

  lemma DistinctIds(entries: seq<BlobEntry>, ids: seq<BlobId>)
    requires Ids(entries, ids)
    ensures Distinct(ids)
  {
  }

  ghost predicate DepotsListed(w: World) {
    && (forall d :: d in w.depotIds <==> d in w.depots)
    && forall i, j :: 0 <= i < j < |w.depotIds| ==> w.depotIds[i] < w.depotIds[j]
  }

  /** At the root every listed depot is found under its name, but lookup
      accepts every spelling of the number: a name that resolves is listed
      exactly when it is the canonical decimal form. */
  lemma RootTreeAgrees(w: World, name: Text)
    requires DepotsListed(w)
    ensures forall i :: 0 <= i < |RootEntries(w)| ==>
      Lookup(w, Root, RootEntries(w)[i].name) == Ok(Some(RootEntries(w)[i].key))
    ensures Lookup(w, Root, name) != Ok(None) ==>
      && ParseU32(name).Some? && Lookup(w, Root, name) == Ok(Some(DepotDir(ParseU32(name).value)))
      && ((exists i :: 0 <= i < |RootEntries(w)| && RootEntries(w)[i].name == name) <==> name == Dec(ParseU32(name).value))
  {
    var es := RootEntries(w);
    forall i | 0 <= i < |es| ensures Lookup(w, Root, es[i].name) == Ok(Some(es[i].key)) {
      DecParses(w.depotIds[i]);
      assert w.depotIds[i] in w.depotIds;
    }
    if Lookup(w, Root, name) != Ok(None) {
      var d := ParseU32(name).value;
      assert d in w.depotIds;
      var k :| 0 <= k < |w.depotIds| && w.depotIds[k] == d;
      assert es[k].name == Dec(d);
      forall i | 0 <= i < |es| && es[i].name == name ensures name == Dec(d) {
        DecParses(w.depotIds[i]);
      }
    }
  }

  lemma DecParses(d: u32)
    ensures ParseU32(Dec(d)) == Some(d)
  {
    DecValueOfDec(d);
  }

  /** `+7` is not listed, yet finds depot 7. */
  lemma RootAcceptsAliases(w: World)
    requires DepotsListed(w) && 7 in w.depots
    ensures Lookup(w, Root, Ascii("+7")) == Ok(Some(DepotDir(7)))
    ensures forall i :: 0 <= i < |RootEntries(w)| ==> RootEntries(w)[i].name != Ascii("+7")
  {
    var t := Ascii("+7");
    assert t == [43, 55] && t[1..] == [55];
    assert DecValue([55]) == 7 by { assert [55][..0] == []; }
  }

  /** `parent` leads back to the listing directory for depots and versions;
      for `latest`, `by-date` and date links it answers the root instead. */
  lemma ParentOfListed(w: World, d: u32, ids: seq<BlobId>)
    requires DepotIndexed(w, d, ids)
    ensures forall i :: 0 <= i < |RootEntries(w)| ==> Parent(w, RootEntries(w)[i].key) == Root
    ensures forall i :: 0 <= i < |DepotEntries(w, d)| ==>
      (Parent(w, DepotEntries(w, d)[i].key) == DepotDir(d) <==> DepotEntries(w, d)[i].key.Version?)
    ensures forall i :: 0 <= i < |DateEntries(w, d)| ==> Parent(w, DateEntries(w, d)[i].key) == Root
  {
    hide DepotIndexed, World.LatestOf, DepotEntries;
    DepotLookups(w, d, ids);
    DepotOfIds(w, d, ids);
    DepotListing(w, d);
    var dep := w.depots[d];
    forall i | 0 <= i < |dep.blobs| ensures Parent(w, Version(dep.blobs[i])) == DepotDir(d) {
      assert dep.blobs[i] in dep.blobs;
    }
  }

  lemma DepotOfIds(w: World, d: u32, ids: seq<BlobId>)
    requires DepotIndexed(w, d, ids)
    ensures forall b :: b in ids ==> b < |w.entries| && w.entries[b].depot == d
  {
  }

  /** A depot lists its versions by number and crc, and `by-date` lists its
      links by the second, undated blobs last. */
  lemma ListingsInOrder(w: World, d: u32, ids: seq<BlobId>, i: nat, j: nat)
    requires DepotIndexed(w, d, ids) && i < j
    ensures j < |DepotEntries(w, d)| && DepotEntries(w, d)[i].key.Version? && DepotEntries(w, d)[j].key.Version? ==>
      var a, b := DepotEntries(w, d)[i].key.blob, DepotEntries(w, d)[j].key.blob;
      a < |w.entries| && b < |w.entries| && InVersionOrder(w.entries, a, b)
    ensures j < |DateEntries(w, d)| && (forall b :: b in ids ==> DatedBefore10000(w.entries[b])) ==>
      var a, b := DateEntries(w, d)[i].key, DateEntries(w, d)[j].key;
      && a.DateLinkTo? && b.DateLinkTo? && a.blob in ids && b.blob in ids
      && InDateOrder(w.entries[a.blob].date, w.entries[b.blob].date)
  {
    hide IsDepotOf, World.LatestOf, DepotEntries, InVersionOrder, InDateOrder, DatedBefore10000;
    var dep := w.depots[d];
    DepotLookups(w, d, ids);
    DepotListing(w, d);
    DepotIds(w.entries, ids, dep);
    if j < |dep.blobs| {
      ListedInVersionOrder(w.entries, ids, dep, i, j);
    }
    if j < |dep.dateOrder| && forall b :: b in ids ==> DatedBefore10000(w.entries[b]) {
      ListingIsChronological(w.entries, ids, dep, i, j);
    }
  }

  // ---- links -------------------------------------------------------------

  /** `link_target`: where a symlink points, relative to its own directory. */
  function LinkTarget(w: World, key: Key): Option<Text> {
    match key
    case LatestLink(d) =>
      if d !in w.depots || w.LatestOf(d).None? then None else w.depots[d].NameOf(w.LatestOf(d).value)
    case DateLinkTo(b) =>
      if b >= |w.entries| || w.entries[b].depot !in w.depots then None
      else
        (match w.depots[w.entries[b].depot].NameOf(b)
         case None => None
         case Some(name) => Some([46, 46, 47] + name))
    case _ => None
  }

  /** `latest` names, in its own directory, the version of highest number and
      newest date; a date link names its blob's version one directory up;
      nothing else is a link. */
  lemma LinksLead(w: World, d: u32, ids: seq<BlobId>)
    requires DepotIndexed(w, d, ids)
    ensures LinkTarget(w, LatestLink(d)).Some?
    ensures exists b :: b in ids && IsNewest(w.entries, ids, b) && Lookup(w, DepotDir(d), LinkTarget(w, LatestLink(d)).value) == Ok(Some(Version(b)))
    ensures forall b :: b in ids ==>
      && LinkTarget(w, DateLinkTo(b)).Some? && |LinkTarget(w, DateLinkTo(b)).value| >= 3
      && LinkTarget(w, DateLinkTo(b)).value[..3] == Ascii("../")
      && Lookup(w, DepotDir(d), LinkTarget(w, DateLinkTo(b)).value[3..]) == Ok(Some(Version(b)))
    ensures forall key: Key :: !key.LatestLink? && !key.DateLinkTo? ==> LinkTarget(w, key).None?
  {
    hide IsDepotOf, Depot.NameOf, Depot.LookupName, NamesInvert, LinksInvert, Latest, DistinctVersions;
    var dep := w.depots[d];
    LookupsInvertNames(w.entries, ids, dep);
    LatestIsNewest(w.entries, ids, dep);
    DepotLookups(w, d, ids);
    forall b | b in ids
      ensures dep.NameOf(b).Some? && Lookup(w, DepotDir(d), dep.NameOf(b).value) == Ok(Some(Version(b)))
    {
      NameFinds(w, d, ids, b);
    }
    DepotInRange(w, d, ids);
    forall b | b in ids ensures var t := LinkTarget(w, DateLinkTo(b)); t.Some? && t.value == [46, 46, 47] + dep.NameOf(b).value {
    }
    assert Ascii("../") == [46, 46, 47];
    var b := w.LatestOf(d).value;
    assert b in ids && IsNewest(w.entries, ids, b);
  }

  lemma DepotInRange(w: World, d: u32, ids: seq<BlobId>)
    requires DepotIndexed(w, d, ids)
    ensures forall i :: 0 <= i < |w.depots[d].blobs| ==> w.depots[d].blobs[i] < |w.entries|
    ensures w.LatestOf(d) == Latest(w.entries, w.depots[d].blobs)
  {
    hide NamesOf, LastWins, OrderedByLink, Depots.Indexed, Latest;
  }

  /** No blob has a higher version, nor a later date among its version. */
  ghost predicate IsNewest(entries: seq<BlobEntry>, ids: seq<BlobId>, b: BlobId)
    requires Ids(entries, ids) && b < |entries|
  {
    forall o :: o in ids ==>
      && entries[o].version <= entries[b].version
      && (entries[o].version == entries[b].version ==> NoLater(entries[o].date, entries[b].date))
  }

  lemma NameFinds(w: World, d: u32, ids: seq<BlobId>, b: BlobId)
    requires DepotIndexed(w, d, ids) && b in ids
    ensures d in w.depots && w.depots[d].NameOf(b).Some?
    ensures Lookup(w, DepotDir(d), w.depots[d].NameOf(b).value) == Ok(Some(Version(b)))
  {
    hide IsDepotOf, Depot.NameOf, Depot.LookupName, World.LatestOf, LinksInvert;
    var dep := w.depots[d];
    LookupsInvertNames(w.entries, ids, dep);
    DepotLookups(w, d, ids);
  }

  // ---- kinds -------------------------------------------------------------

  /** What can be listed: the three fixed directories always, a version or node
      exactly when its manifest loads and the node is a directory, a link never. */
  lemma OnlyDirectoriesList(w: World, key: Key)
    ensures key.Root? || key.DepotDir? || key.ByDate? ==> Entries(w, key).Ok?
    ensures key.LatestLink? || key.DateLinkTo? ==>
      Entries(w, key) == Err(NotADirectory) && forall name :: Lookup(w, key, name) == Ok(None)
    ensures key.Version? || key.NodeOf? ==>
      match w.ManifestOf(key.blob)
      case Err(e) => Entries(w, key) == Err(Read(e)) && forall name :: Lookup(w, key, name) == Err(Read(e))
      case Ok(m) =>
        var dir := if key.Version? then m.Root() else key.idx;
        if dir < |m.nodes| && m.nodes[dir].fileId == 0xffff_ffff then Entries(w, key).Ok? else Entries(w, key) == Err(NotADirectory)
  {
  }

  /** A node is listed as a directory exactly when it can itself be listed,
      that is when it has no file id, and as a file otherwise. */
  lemma NodeKinds(w: World, key: Key, m: Manifest, dir: nat, i: nat)
    requires IsDirKey(w, key, m, dir) && i < |Children(m, dir)| && Children(m, dir)[i] < |m.nodes|
    ensures var e := NodeListing(key.blob, m, Children(m, dir))[i];
      && (e.kind == Dir <==> Entries(w, e.key).Ok?) && (e.kind == Dir <==> m.nodes[Children(m, dir)[i]].fileId == 0xffff_ffff)
      && (e.kind == Dir || e.kind == File)
  {
    hide Children, ChildByName;
    OnlyDirectoriesList(w, NodeListing(key.blob, m, Children(m, dir))[i].key);
  }

  /** Elsewhere, `latest` and the date links are symlinks and all else is a
      directory that can be listed once its manifest loads. */
  lemma FixedKinds(w: World, d: u32)
    ensures forall i :: 0 <= i < |RootEntries(w)| ==> RootEntries(w)[i].kind == Dir && Entries(w, RootEntries(w)[i].key).Ok?
    ensures forall i :: 0 <= i < |DepotEntries(w, d)| ==>
      (DepotEntries(w, d)[i].kind == if DepotEntries(w, d)[i].key.LatestLink? then Symlink else Dir)
    ensures forall i :: 0 <= i < |DateEntries(w, d)| ==> DateEntries(w, d)[i].kind == Symlink && DateEntries(w, d)[i].key.DateLinkTo?
  {
    hide World.LatestOf;
  }

  /** A node whose manifest does not load, or that is not in it, is put under
      its version. */
  lemma ParentFallsBack(w: World, b: BlobId, i: nat)
    ensures w.ManifestOf(b).Err? || i >= |w.ManifestOf(b).value.nodes| ==> Parent(w, NodeOf(b, i)) == Version(b)
  {
  }

  // ---- numbers as names --------------------------------------------------

  /** `t` is `digits`, perhaps after a plus sign, and they say `v`. */
  ghost predicate Spells(t: Text, digits: Text, v: u32) {
    (t == digits || t == [43] + digits) && digits != [] && Digits(digits) && DecValue(digits) == v
  }

  /** Exactly the spellings of a number that fits: digits, perhaps with leading
      zeros, perhaps after a plus sign. */
  lemma ParseU32Meaning(t: Text, v: u32)
    ensures ParseU32(t) == Some(v) <==> exists digits :: Spells(t, digits, v)
  {
    var rest: Text := if |t| > 0 && t[0] == 43 then t[1..] else t;
    assert t == rest || t == [43] + rest;
    if ParseU32(t) == Some(v) {
      assert Digits(rest) && DecValue(rest) == v;
      assert Spells(t, rest, v);
    }
    forall digits | Spells(t, digits, v) ensures digits == rest {
      assert t == [43] + digits ==> t[1..] == digits;
    }
  }
}
