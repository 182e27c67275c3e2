/** The depot index (src/index.rs): which blobs a depot has, and the version
    and date-link names they are listed under. */
module Depots {
  import opened Wrappers
  import opened Seqs
  import opened Bytes
  import opened Text
  import opened Calendar
  import opened Stamps

  const NANOS_PER_SECOND: nat := 1_000_000_000

  /** `date` is nanoseconds since the epoch, when the dump records one. */
  datatype BlobEntry = BlobEntry(depot: u32, version: u32, crc: u32, date: Option<nat>)

  datatype DatEntry = DatEntry(depot: u32, version: u32, crc: u32, size: u64, incomplete: bool)

  type BlobId = nat
  type DatId = nat

  datatype Depot = Depot(
    blobs: seq<BlobId>,
    names: seq<(Text, Text)>,
    byName: map<Text, BlobId>,
    byDateLink: map<Text, BlobId>,
    dateOrder: seq<BlobId>,
    indexOf: map<BlobId, nat>)
  {
    function LookupName(name: Text): Option<BlobId> {
      if name in byName then Some(byName[name]) else None
    }

    function LookupDateLink(name: Text): Option<BlobId> {
      if name in byDateLink then Some(byDateLink[name]) else None
    }

    function NameOf(id: BlobId): Option<Text> {
      if id in indexOf && indexOf[id] < |names| then Some(names[indexOf[id]].0) else None
    }

    function DateLinkOf(id: BlobId): Option<Text> {
      if id in indexOf && indexOf[id] < |names| then Some(names[indexOf[id]].1) else None
    }
  }

  ghost predicate Ids(entries: seq<BlobEntry>, ids: seq<BlobId>) {
    (forall i :: 0 <= i < |ids| ==> ids[i] < |entries|) && Distinct(ids)
  }

  // ---- names -------------------------------------------------------------

  function VersionCount(entries: seq<BlobEntry>, ids: seq<BlobId>, version: u32): nat
    requires forall i :: 0 <= i < |ids| ==> ids[i] < |entries|
  {
    if ids == [] then 0
    else
      var last := |ids| - 1;
      VersionCount(entries, ids[..last], version) + if entries[ids[last]].version == version then 1 else 0
  }

  function VersionName(entry: BlobEntry, count: nat): Text {
    if count > 1 then Dec(entry.version) + [DASH] + Fixed(entry.crc, 16, 8) else Dec(entry.version)
  }

  function StampText(date: Option<nat>): Text {
    match date
    case None => Ascii("unknown")
    case Some(t) => FormatStamp(t / NANOS_PER_SECOND)
  }

  function DateLink(entry: BlobEntry, count: nat): Text {
    StampText(entry.date) + [UNDERSCORE] + (Ascii("v") + VersionName(entry, count))
  }

  /** Sort key of the version listing: (version, crc). */
  function VersionKey(entries: seq<BlobEntry>): BlobId -> seq<int> {
    (id: BlobId) => if id < |entries| then [entries[id].version, entries[id].crc] else []
  }

  function LinkKey(links: seq<Text>): nat -> seq<int> {
    (i: nat) => if i < |links| then links[i] else []
  }

  function Range(n: nat): (r: seq<nat>)
    ensures |r| == n && forall i :: 0 <= i < n ==> r[i] == i
  {
    seq(n, i requires i >= 0 => i)
  }

  /** The version listing's order. */
  function ByVersion(entries: seq<BlobEntry>, ids: seq<BlobId>): seq<BlobId> {
    Sort<BlobId>(ids, VersionKey(entries))
  }

  /** The places of the first `n` links, in byte order of the links. */
  function LinkOrder(links: seq<Text>, n: nat): seq<nat> {
    Sort<nat>(Range(n), LinkKey(links))
  }

  lemma LinkOrderSorts(links: seq<Text>, n: nat)
    requires n <= |links|
    ensures |LinkOrder(links, n)| == n && multiset(LinkOrder(links, n)) == multiset(Range(n))
    ensures forall i :: 0 <= i < n ==> LinkOrder(links, n)[i] < n
    ensures forall i, j :: 0 <= i < j < n ==> LexLe(links[LinkOrder(links, n)[i]], links[LinkOrder(links, n)[j]])
  {
    var order, key := LinkOrder(links, n), LinkKey(links);
    SortIsSortedPermutation<nat>(Range(n), key);
    forall i | 0 <= i < |order| ensures order[i] < n {
      assert order[i] in Range(n);
    }
    forall i, j | 0 <= i < j < n ensures LexLe(links[order[i]], links[order[j]]) {
      assert key(order[i]) == links[order[i]] && key(order[j]) == links[order[j]];
    }
  }

  /** `k` is the last place below `n` where `name` is listed. */
  ghost predicate LastPlace(names: seq<Text>, n: nat, k: nat, name: Text)
    requires n <= |names|
  {
    k < n && names[k] == name && forall j :: k < j < n ==> names[j] != name
  }

  /** `m` maps each of the first `n` names to the last blob listed under it. */
  ghost predicate LastWins(names: seq<Text>, blobs: seq<BlobId>, n: nat, m: map<Text, BlobId>)
    requires n <= |names| == |blobs|
  {
    && (forall i :: 0 <= i < n ==> names[i] in m)
    && (forall name :: name in m ==> exists k: nat :: LastPlace(names, n, k, name) && m[name] == blobs[k])
  }

  function Firsts(names: seq<(Text, Text)>): (r: seq<Text>)
    ensures |r| == |names| && forall i :: 0 <= i < |names| ==> r[i] == names[i].0
  {
    seq(|names|, i requires 0 <= i < |names| => names[i].0)
  }

  function Seconds(names: seq<(Text, Text)>): (r: seq<Text>)
    ensures |r| == |names| && forall i :: 0 <= i < |names| ==> r[i] == names[i].1
  {
    seq(|names|, i requires 0 <= i < |names| => names[i].1)
  }

  ghost predicate NamesOf(entries: seq<BlobEntry>, blobs: seq<BlobId>, names: seq<(Text, Text)>)
    requires forall i :: 0 <= i < |blobs| ==> blobs[i] < |entries|
  {
    && |names| == |blobs|
    && forall i :: 0 <= i < |blobs| ==>
         names[i] == (NameAt(entries, blobs, blobs[i]), LinkAt(entries, blobs, blobs[i]))
  }

  function NameAt(entries: seq<BlobEntry>, blobs: seq<BlobId>, id: BlobId): Text
    requires (forall i :: 0 <= i < |blobs| ==> blobs[i] < |entries|) && id < |entries|
  {
    VersionName(entries[id], VersionCount(entries, blobs, entries[id].version))
  }

  function LinkAt(entries: seq<BlobEntry>, blobs: seq<BlobId>, id: BlobId): Text
    requires (forall i :: 0 <= i < |blobs| ==> blobs[i] < |entries|) && id < |entries|
  {
    DateLink(entries[id], VersionCount(entries, blobs, entries[id].version))
  }

  ghost predicate Indexed(blobs: seq<BlobId>, indexOf: map<BlobId, nat>) {
    && (forall b :: b in indexOf ==> b in blobs)
    && (forall i :: 0 <= i < |blobs| ==> blobs[i] in indexOf && indexOf[blobs[i]] == i)
  }

  /** `ordered` is `blobs` in byte order of the link names. */
  ghost predicate OrderedByLink(links: seq<Text>, blobs: seq<BlobId>, ordered: seq<BlobId>) {
    var order := LinkOrder(links, |blobs|);
    && |ordered| == |order| == |blobs|
    && forall i :: 0 <= i < |order| ==> order[i] < |blobs| && ordered[i] == blobs[order[i]]
  }

  /** Everything `Index::load` establishes about one depot. */
  ghost predicate IsDepotOf(entries: seq<BlobEntry>, ids: seq<BlobId>, d: Depot)
    requires Ids(entries, ids)
  {
    && d.blobs == ByVersion(entries, ids)
    && Ids(entries, d.blobs)
    && NamesOf(entries, d.blobs, d.names)
    && Indexed(d.blobs, d.indexOf)
    && LastWins(Firsts(d.names), d.blobs, |d.names|, d.byName)
    && LastWins(Seconds(d.names), d.blobs, |d.names|, d.byDateLink)
    && OrderedByLink(Seconds(d.names), d.blobs, d.dateOrder)
  }

  // ---- loading -----------------------------------------------------------

  method CountVersions(entries: seq<BlobEntry>, blobs: seq<BlobId>) returns (counts: map<u32, nat>)
    requires Ids(entries, blobs)
    ensures forall i :: 0 <= i < |blobs| ==>
      var v := entries[blobs[i]].version; v in counts && counts[v] == VersionCount(entries, blobs, v)
  {
    counts := map[];
    for i := 0 to |blobs|
      invariant forall v: u32 :: (if v in counts then counts[v] else 0) == VersionCount(entries, blobs[..i], v)
      invariant forall j :: 0 <= j < i ==> entries[blobs[j]].version in counts
    {
      var v := entries[blobs[i]].version;
      assert blobs[..i + 1][..i] == blobs[..i];
      counts := counts[v := (if v in counts then counts[v] else 0) + 1];
    }
    assert blobs[..|blobs|] == blobs;
  }

  method NameVersions(entries: seq<BlobEntry>, blobs: seq<BlobId>) returns (names: seq<(Text, Text)>)
    requires Ids(entries, blobs)
    ensures NamesOf(entries, blobs, names)
  {
    hide VersionName, DateLink, VersionCount;
    var counts := CountVersions(entries, blobs);
    names := [];
    for i := 0 to |blobs|
      invariant |names| == i
      invariant forall j :: 0 <= j < i ==>
        names[j] == (NameAt(entries, blobs, blobs[j]), LinkAt(entries, blobs, blobs[j]))
    {
      var e := entries[blobs[i]];
      names := names + [(VersionName(e, counts[e.version]), DateLink(e, counts[e.version]))];
    }
  }

  method IndexBlobs(blobs: seq<BlobId>) returns (indexOf: map<BlobId, nat>)
    requires Distinct(blobs)
    ensures Indexed(blobs, indexOf)
  {
    indexOf := map[];
    for i := 0 to |blobs|
      invariant forall b :: b in indexOf ==> b in blobs
      invariant forall j :: 0 <= j < i ==> blobs[j] in indexOf && indexOf[blobs[j]] == j
    {
      indexOf := indexOf[blobs[i] := i];
    }
  }

  method MapNames(names: seq<Text>, blobs: seq<BlobId>) returns (m: map<Text, BlobId>)
    requires |names| == |blobs|
    ensures LastWins(names, blobs, |names|, m)
  {
    m := map[];
    for i := 0 to |names|
      invariant LastWins(names, blobs, i, m)
    {
      ghost var before := m;
      m := m[names[i] := blobs[i]];
      forall name | name in m
        ensures exists k: nat :: LastPlace(names, i + 1, k, name) && m[name] == blobs[k]
      {
        if name == names[i] {
          assert LastPlace(names, i + 1, i, name);
        } else {
          var k: nat :| LastPlace(names, i, k, name) && before[name] == blobs[k];
          assert LastPlace(names, i + 1, k, name);
        }
      }
    }
  }

  method OrderByDate(links: seq<Text>, blobs: seq<BlobId>) returns (ordered: seq<BlobId>)
    requires |links| == |blobs|
    ensures OrderedByLink(links, blobs, ordered)
  {
    var order := LinkOrder(links, |blobs|);
    LinkOrderSorts(links, |blobs|);
    ordered := [];
    for i := 0 to |order|
      invariant |ordered| == i && forall j :: 0 <= j < i ==> ordered[j] == blobs[order[j]]
    {
      ordered := ordered + [blobs[order[i]]];
    }
  }

  method BuildDepot(entries: seq<BlobEntry>, ids: seq<BlobId>) returns (d: Depot)
    requires Ids(entries, ids)
    ensures IsDepotOf(entries, ids, d)
  {
    var blobs := ByVersion(entries, ids);
    SortedIds(entries, ids);
    var names := NameVersions(entries, blobs);
    var indexOf := IndexBlobs(blobs);
    var byName := MapNames(Firsts(names), blobs);
    var byDateLink := MapNames(Seconds(names), blobs);
    var dateOrder := OrderByDate(Seconds(names), blobs);
    d := Depot(blobs, names, byName, byDateLink, dateOrder, indexOf);
  }

  lemma SortedIds(entries: seq<BlobEntry>, ids: seq<BlobId>)
    requires Ids(entries, ids)
    ensures Ids(entries, ByVersion(entries, ids))
  {
    var blobs := ByVersion(entries, ids);
    SortIsSortedPermutation<BlobId>(ids, VersionKey(entries));
    Distinctness(ids, blobs);
    forall i | 0 <= i < |blobs| ensures blobs[i] < |entries| {
      assert blobs[i] in ids;
    }
  }

  // ---- names are injective -----------------------------------------------

  /** No two blobs of the depot share both version and crc. */
  ghost predicate DistinctVersions(entries: seq<BlobEntry>, ids: seq<BlobId>)
    requires Ids(entries, ids)
  {
    forall i, j :: 0 <= i < j < |ids| ==>
      entries[ids[i]].version != entries[ids[j]].version || entries[ids[i]].crc != entries[ids[j]].crc
  }

  /** What a link shows of a date: its second, or that there is none. */
  function Shown(date: Option<nat>): Option<nat> {
    if date.None? then None else Some(date.value / NANOS_PER_SECOND)
  }

  /** No two blobs of the depot share version, crc and the date shown. */
  ghost predicate DistinctDated(entries: seq<BlobEntry>, ids: seq<BlobId>)
    requires Ids(entries, ids)
  {
    forall i, j :: 0 <= i < j < |ids| ==>
      || entries[ids[i]].version != entries[ids[j]].version || entries[ids[i]].crc != entries[ids[j]].crc
      || Shown(entries[ids[i]].date) != Shown(entries[ids[j]].date)
  }

  /** Equal strings have equal halves around their first `c`. */
  lemma CutAt(c: byte, x: Text, y: Text, x': Text, y': Text)
    requires c !in x && c !in x' && x + [c] + y == x' + [c] + y'
    ensures x == x' && y == y'
  {
    var s := x + [c] + y;
    assert s[|x|] == c && s[|x'|] == c;
    assert forall i :: 0 <= i < |x'| ==> s[i] == x'[i] != c;
    assert forall i :: 0 <= i < |x| ==> s[i] == x[i] != c;
    assert s[..|x|] == x && s[..|x'|] == x';
    assert s[|x| + 1..] == y && s[|x'| + 1..] == y';
  }

  lemma {:induction false} CountsTwo(entries: seq<BlobEntry>, ids: seq<BlobId>, i: nat, j: nat, v: u32)
    requires Ids(entries, ids) && i < |ids| && j < |ids|
    requires entries[ids[i]].version == v && entries[ids[j]].version == v
    ensures VersionCount(entries, ids, v) >= if i == j then 1 else 2
  {
    var last := |ids| - 1;
    if i < last {
      CountsTwo(entries, ids[..last], i, if j < last then j else i, v);
    } else if j < last {
      CountsTwo(entries, ids[..last], j, j, v);
    }
  }

  lemma CrcFits(e: BlobEntry)
    ensures e.crc < Pow(16, 8)
  {
    assert Pow(16, 2) == 16 * Pow(16, 1) && Pow(16, 1) == 16 * Pow(16, 0);
    assert Pow(16, 4) == 256 * Pow(16, 2) && Pow(16, 6) == 256 * Pow(16, 4) && Pow(16, 8) == 256 * Pow(16, 6);
  }

  /** A name determines its version, and with a crc suffix its crc. */
  lemma NameDetermines(a: BlobEntry, m: nat, b: BlobEntry, n: nat)
    requires VersionName(a, m) == VersionName(b, n)
    ensures a.version == b.version && (m > 1 <==> n > 1) && (m > 1 ==> a.crc == b.crc)
  {
    assert DASH !in Dec(a.version) && DASH !in Dec(b.version);
    assert m > 1 <==> DASH in VersionName(a, m) by {
      assert m > 1 ==> VersionName(a, m)[|Dec(a.version)|] == DASH;
    }
    assert n > 1 <==> DASH in VersionName(b, n) by {
      assert n > 1 ==> VersionName(b, n)[|Dec(b.version)|] == DASH;
    }
    if m > 1 {
      CutAt(DASH, Dec(a.version), Fixed(a.crc, 16, 8), Dec(b.version), Fixed(b.crc, 16, 8));
      DecInjective(a.version, b.version);
      CrcFits(a);
      CrcFits(b);
      FixedInjective(a.crc, b.crc, 16, 8);
    } else {
      DecInjective(a.version, b.version);
    }
  }

  lemma {:induction false} PaddedHasDigits(n: nat, w: nat)
    ensures forall c :: c in Padded(n, w) ==> 48 <= c < 58
  {
    hide Dec;
  }

  lemma StampHasNoUnderscore(date: Option<nat>)
    ensures UNDERSCORE !in StampText(date) && |StampText(date)| > 0
    ensures if date.Some? then 48 <= StampText(date)[0] < 58 else StampText(date)[0] == 117
  {
    if date.Some? {
      var secs := date.value / NANOS_PER_SECOND;
      hide CivilFromDays, Padded;
      DateIsModern(secs);
      StampPieces(secs);
      RenderHasNoUnderscore(Fields(secs), Widths6(YearWidth(secs)), Separators());
    }
  }

  lemma StampPieces(secs: nat)
    ensures FormatStamp(secs) == Render(Fields(secs), Widths6(YearWidth(secs)), Separators())
    ensures forall i :: 0 <= i < 6 ==> UNDERSCORE !in Separators()[i]
    ensures 4 <= YearWidth(secs) <= |FormatStamp(secs)| && 48 <= FormatStamp(secs)[0] < 58
  {
    hide CivilFromDays, Padded;
    StampIsRendered(secs);
    FieldsFit(secs);
    DateIsModern(secs);
    PaddedHasDigits(DateOf(secs).year, 4);
    assert FormatStamp(secs)[0] == Padded(DateOf(secs).year, 4)[0];
    assert FormatStamp(secs)[0] in Padded(DateOf(secs).year, 4);
  }

  lemma {:induction false} RenderHasNoUnderscore(f: seq<nat>, w: seq<nat>, s: seq<Text>)
    requires |f| == |w| == |s| && forall i :: 0 <= i < |s| ==> UNDERSCORE !in s[i]
    ensures UNDERSCORE !in Render(f, w, s)
  {
    if f != [] {
      RenderHasNoUnderscore(f[1..], w[1..], s[1..]);
    }
  }

  lemma LinkDetermines(a: BlobEntry, m: nat, b: BlobEntry, n: nat)
    requires DateLink(a, m) == DateLink(b, n)
    ensures VersionName(a, m) == VersionName(b, n) && StampText(a.date) == StampText(b.date)
  {
    hide VersionName, StampText;
    StampHasNoUnderscore(a.date);
    StampHasNoUnderscore(b.date);
    var x, y := Ascii("v") + VersionName(a, m), Ascii("v") + VersionName(b, n);
    CutAt(UNDERSCORE, StampText(a.date), x, StampText(b.date), y);
    assert x[1..] == VersionName(a, m) && y[1..] == VersionName(b, n);
  }

  lemma NamesDistinct(entries: seq<BlobEntry>, ids: seq<BlobId>, i: nat, j: nat)
    requires Ids(entries, ids) && DistinctVersions(entries, ids) && i < |ids| && j < |ids|
    requires NameAt(entries, ids, ids[i]) == NameAt(entries, ids, ids[j])
    ensures i == j
  {
    hide VersionName;
    var a, b := entries[ids[i]], entries[ids[j]];
    NameDetermines(a, VersionCount(entries, ids, a.version), b, VersionCount(entries, ids, b.version));
    CountsTwo(entries, ids, i, j, a.version);
  }

  /** Stamps of different seconds differ, whatever the width of the year. */
  lemma StampInjective(s: nat, t: nat)
    requires FormatStamp(s) == FormatStamp(t)
    ensures s == t
  {
    assert YearWidth(s) == YearWidth(t) by { SameWidth(s, t); }
    hide FormatStamp, YearWidth;
    StampOrder(s, t);
  }

  lemma SameWidth(s: nat, t: nat)
    requires FormatStamp(s) == FormatStamp(t)
    ensures YearWidth(s) == YearWidth(t)
  {
    hide CivilFromDays, Padded;
    var x := StampHead(s);
    var y := StampHead(t);
    CutAt(DASH, Padded(DateOf(s).year, 4), x, Padded(DateOf(t).year, 4), y);
  }

  /** A stamp is its year, a dash and the rest. */
  lemma StampHead(secs: nat) returns (rest: Text)
    ensures DateOf(secs).year >= 0 && FormatStamp(secs) == Padded(DateOf(secs).year, 4) + [DASH] + rest
    ensures DASH !in Padded(DateOf(secs).year, 4) && YearWidth(secs) == |Padded(DateOf(secs).year, 4)|
  {
    hide CivilFromDays, Padded;
    DateIsModern(secs);
    var year := Padded(DateOf(secs).year, 4);
    PaddedHasDigits(DateOf(secs).year, 4);
    rest := FormatStamp(secs)[|year| + 1..];
  }

  lemma StampShows(a: Option<nat>, b: Option<nat>)
    ensures StampText(a) == StampText(b) <==> Shown(a) == Shown(b)
  {
    hide FormatStamp;
    if StampText(a) == StampText(b) {
      StampHasNoUnderscore(a);
      StampHasNoUnderscore(b);
      if a.Some? && b.Some? {
        StampInjective(a.value / NANOS_PER_SECOND, b.value / NANOS_PER_SECOND);
      }
    }
  }

  lemma LinksDistinct(entries: seq<BlobEntry>, ids: seq<BlobId>, i: nat, j: nat)
    requires Ids(entries, ids) && DistinctDated(entries, ids) && i < |ids| && j < |ids|
    requires LinkAt(entries, ids, ids[i]) == LinkAt(entries, ids, ids[j])
    ensures i == j
  {
    hide VersionName, DateLink, StampText;
    var a, b := entries[ids[i]], entries[ids[j]];
    var m, n := VersionCount(entries, ids, a.version), VersionCount(entries, ids, b.version);
    LinkDetermines(a, m, b, n);
    NameDetermines(a, m, b, n);
    StampShows(a.date, b.date);
    CountsTwo(entries, ids, i, j, a.version);
  }

  lemma SortedVersionsDistinct(entries: seq<BlobEntry>, ids: seq<BlobId>)
    requires Ids(entries, ids)
    ensures Ids(entries, ByVersion(entries, ids))
    ensures DistinctVersions(entries, ids) ==> DistinctVersions(entries, ByVersion(entries, ids))
    ensures DistinctDated(entries, ids) ==> DistinctDated(entries, ByVersion(entries, ids))
  {
    hide Shown;
    var blobs := ByVersion(entries, ids);
    SortedIds(entries, ids);
    SortIsSortedPermutation<BlobId>(ids, VersionKey(entries));
    forall i, j | 0 <= i < j < |blobs|
      ensures blobs[i] in ids && blobs[j] in ids && blobs[i] != blobs[j]
    {
    }
  }

  lemma ListedNamesAreDistinct(entries: seq<BlobEntry>, ids: seq<BlobId>, d: Depot)
    requires Ids(entries, ids) && IsDepotOf(entries, ids, d)
    ensures DistinctVersions(entries, ids) ==> Distinct(Firsts(d.names))
    ensures DistinctDated(entries, ids) ==> Distinct(Seconds(d.names))
  {
    hide NameAt, LinkAt, LastWins, OrderedByLink, Indexed, ByVersion, DistinctVersions, DistinctDated;
    SortedVersionsDistinct(entries, ids);
    var blobs := d.blobs;
    if DistinctVersions(entries, ids) {
      forall i, j | 0 <= i < j < |blobs| ensures d.names[i].0 != d.names[j].0 {
        if d.names[i].0 == d.names[j].0 {
          NamesDistinct(entries, blobs, i, j);
        }
      }
    }
    if DistinctDated(entries, ids) {
      forall i, j | 0 <= i < j < |blobs| ensures d.names[i].1 != d.names[j].1 {
        if d.names[i].1 == d.names[j].1 {
          LinksDistinct(entries, blobs, i, j);
        }
      }
    }
  }

  /** A last-wins map over distinct names inverts the listing. */
  lemma MapInverts(names: seq<Text>, blobs: seq<BlobId>, m: map<Text, BlobId>, indexOf: map<BlobId, nat>)
    requires |names| == |blobs| && LastWins(names, blobs, |names|, m) && Distinct(names) && Indexed(blobs, indexOf)
    ensures forall b :: b in blobs ==> b in indexOf && indexOf[b] < |names| && names[indexOf[b]] in m && m[names[indexOf[b]]] == b
    ensures forall n :: n in m ==> m[n] in blobs && m[n] in indexOf && indexOf[m[n]] < |names| && names[indexOf[m[n]]] == n
  {
    forall n | n in m ensures m[n] in blobs && m[n] in indexOf && indexOf[m[n]] < |names| && names[indexOf[m[n]]] == n {
      var k: nat :| LastPlace(names, |names|, k, n) && m[n] == blobs[k];
    }
    forall b | b in blobs
      ensures b in indexOf && indexOf[b] < |names| && names[indexOf[b]] in m && m[names[indexOf[b]]] == b
    {
      var i :| 0 <= i < |blobs| && blobs[i] == b;
      assert names[i] in m;
      var k: nat :| LastPlace(names, |names|, k, names[i]) && m[names[i]] == blobs[k];
      assert k == i;
    }
  }

  lemma BlobsAreIds(entries: seq<BlobEntry>, ids: seq<BlobId>, d: Depot)
    requires Ids(entries, ids) && IsDepotOf(entries, ids, d)
    ensures forall b :: b in d.blobs <==> b in ids
    ensures multiset(d.blobs) == multiset(ids)
  {
    hide NamesOf, Indexed, LastWins, OrderedByLink;
    SortIsSortedPermutation<BlobId>(ids, VersionKey(entries));
  }

  /** Every blob is found under its name, and every name found is its blob's. */
  ghost predicate NamesInvert(ids: seq<BlobId>, d: Depot) {
    && (forall b :: b in ids ==> d.NameOf(b).Some? && d.LookupName(d.NameOf(b).value) == Some(b))
    && (forall n :: d.LookupName(n).Some? ==> d.LookupName(n).value in ids && d.NameOf(d.LookupName(n).value) == Some(n))
  }

  ghost predicate LinksInvert(ids: seq<BlobId>, d: Depot) {
    && (forall b :: b in ids ==> d.DateLinkOf(b).Some? && d.LookupDateLink(d.DateLinkOf(b).value) == Some(b))
    && (forall n :: d.LookupDateLink(n).Some? ==>
          d.LookupDateLink(n).value in ids && d.DateLinkOf(d.LookupDateLink(n).value) == Some(n))
  }

  lemma NameOfListed(entries: seq<BlobEntry>, ids: seq<BlobId>, d: Depot, b: BlobId)
    requires Ids(entries, ids) && IsDepotOf(entries, ids, d) && b in ids
    ensures b < |entries| && d.NameOf(b) == Some(NameAt(entries, d.blobs, b))
    ensures d.DateLinkOf(b) == Some(LinkAt(entries, d.blobs, b))
  {
    hide NameAt, LinkAt, LastWins, OrderedByLink, ByVersion;
    BlobsAreIds(entries, ids, d);
    var k :| 0 <= k < |d.blobs| && d.blobs[k] == b;
    assert d.indexOf[d.blobs[k]] == k;
  }

  /** Names and lookups are inverse to each other exactly when no two blobs
      share version and crc. */
  lemma NamesInvertIff(entries: seq<BlobEntry>, ids: seq<BlobId>, d: Depot)
    requires Ids(entries, ids) && IsDepotOf(entries, ids, d)
    ensures NamesInvert(ids, d) <==> DistinctVersions(entries, ids)
  {
    hide NamesInvert, IsDepotOf;
    if NamesInvert(ids, d) {
      forall i, j | 0 <= i < j < |ids|
        ensures entries[ids[i]].version != entries[ids[j]].version || entries[ids[i]].crc != entries[ids[j]].crc
      {
        InvertingNamesDiffer(entries, ids, d, i, j);
      }
    } else if DistinctVersions(entries, ids) {
      NamesDoInvert(entries, ids, d);
    }
  }

  lemma InvertingNamesDiffer(entries: seq<BlobEntry>, ids: seq<BlobId>, d: Depot, i: nat, j: nat)
    requires Ids(entries, ids) && IsDepotOf(entries, ids, d) && NamesInvert(ids, d) && i < j < |ids|
    ensures entries[ids[i]].version != entries[ids[j]].version || entries[ids[i]].crc != entries[ids[j]].crc
  {
    hide IsDepotOf, VersionName, Depot.NameOf, Depot.LookupName, DateLink, VersionCount;
    NameOfListed(entries, ids, d, ids[i]);
    NameOfListed(entries, ids, d, ids[j]);
    DepotIds(entries, ids, d);
    var a, b := entries[ids[i]], entries[ids[j]];
    if a.version == b.version && a.crc == b.crc {
      SameNames(a, b, VersionCount(entries, d.blobs, a.version));
    }
  }

  lemma InvertingLinksDiffer(entries: seq<BlobEntry>, ids: seq<BlobId>, d: Depot, i: nat, j: nat)
    requires Ids(entries, ids) && IsDepotOf(entries, ids, d) && LinksInvert(ids, d) && i < j < |ids|
    ensures || entries[ids[i]].version != entries[ids[j]].version || entries[ids[i]].crc != entries[ids[j]].crc
            || Shown(entries[ids[i]].date) != Shown(entries[ids[j]].date)
  {
    hide IsDepotOf, VersionName, Depot.DateLinkOf, Depot.LookupDateLink, DateLink, VersionCount, Shown;
    NameOfListed(entries, ids, d, ids[i]);
    NameOfListed(entries, ids, d, ids[j]);
    DepotIds(entries, ids, d);
    var a, b := entries[ids[i]], entries[ids[j]];
    if a.version == b.version && a.crc == b.crc && Shown(a.date) == Shown(b.date) {
      SameNames(a, b, VersionCount(entries, d.blobs, a.version));
    }
  }

  lemma DepotIds(entries: seq<BlobEntry>, ids: seq<BlobId>, d: Depot)
    requires Ids(entries, ids) && IsDepotOf(entries, ids, d)
    ensures Ids(entries, d.blobs)
  {
  }

  lemma SameNames(a: BlobEntry, b: BlobEntry, count: nat)
    requires a.version == b.version && a.crc == b.crc
    ensures VersionName(a, count) == VersionName(b, count)
    ensures Shown(a.date) == Shown(b.date) ==> DateLink(a, count) == DateLink(b, count)
  {
    StampShows(a.date, b.date);
  }

  /** The same for date links, which also tell blobs apart by the second. */
  lemma LinksInvertIff(entries: seq<BlobEntry>, ids: seq<BlobId>, d: Depot)
    requires Ids(entries, ids) && IsDepotOf(entries, ids, d)
    ensures LinksInvert(ids, d) <==> DistinctDated(entries, ids)
  {
    hide LinksInvert, IsDepotOf, Shown;
    if LinksInvert(ids, d) {
      forall i, j | 0 <= i < j < |ids|
        ensures || entries[ids[i]].version != entries[ids[j]].version || entries[ids[i]].crc != entries[ids[j]].crc
                || Shown(entries[ids[i]].date) != Shown(entries[ids[j]].date)
      {
        InvertingLinksDiffer(entries, ids, d, i, j);
      }
    } else if DistinctDated(entries, ids) {
      LinksDoInvert(entries, ids, d);
    }
  }

  lemma NamesDoInvert(entries: seq<BlobEntry>, ids: seq<BlobId>, d: Depot)
    requires Ids(entries, ids) && DistinctVersions(entries, ids) && IsDepotOf(entries, ids, d)
    ensures NamesInvert(ids, d)
  {
    hide NameAt, LinkAt, LastWins, OrderedByLink, Indexed, ByVersion, DistinctVersions, Distinct;
    BlobsAreIds(entries, ids, d);
    ListedNamesAreDistinct(entries, ids, d);
    MapInverts(Firsts(d.names), d.blobs, d.byName, d.indexOf);
  }

  lemma LinksDoInvert(entries: seq<BlobEntry>, ids: seq<BlobId>, d: Depot)
    requires Ids(entries, ids) && DistinctDated(entries, ids) && IsDepotOf(entries, ids, d)
    ensures LinksInvert(ids, d)
  {
    hide NameAt, LinkAt, LastWins, OrderedByLink, Indexed, ByVersion, DistinctDated, Distinct;
    BlobsAreIds(entries, ids, d);
    ListedNamesAreDistinct(entries, ids, d);
    MapInverts(Seconds(d.names), d.blobs, d.byDateLink, d.indexOf);
  }

  /** Where no two blobs share version and crc, names and links both work. */
  lemma LookupsInvertNames(entries: seq<BlobEntry>, ids: seq<BlobId>, d: Depot)
    requires Ids(entries, ids) && DistinctVersions(entries, ids) && IsDepotOf(entries, ids, d)
    ensures NamesInvert(ids, d) && LinksInvert(ids, d)
  {
    hide NamesInvert, LinksInvert, IsDepotOf, Shown;
    assert DistinctDated(entries, ids);
    NamesDoInvert(entries, ids, d);
    LinksDoInvert(entries, ids, d);
  }

  lemma NameStartsWithDigit(e: BlobEntry, count: nat)
    ensures |VersionName(e, count)| > 0 && 48 <= VersionName(e, count)[0] < 58
  {
  }

  /** `latest` and `by-date` can never be version names. */
  lemma ReservedNamesAreFree(entries: seq<BlobEntry>, ids: seq<BlobId>, d: Depot)
    requires Ids(entries, ids) && IsDepotOf(entries, ids, d)
    ensures d.LookupName(Ascii("latest")).None? && d.LookupName(Ascii("by-date")).None?
  {
    hide OrderedByLink, Indexed, ByVersion, VersionName, VersionCount, DateLink;
    var names := Firsts(d.names);
    forall n | n in d.byName ensures |n| > 0 && 48 <= n[0] < 58 {
      var k: nat :| LastPlace(names, |names|, k, n) && d.byName[n] == d.blobs[k];
      var e := entries[d.blobs[k]];
      NameStartsWithDigit(e, VersionCount(entries, d.blobs, e.version));
    }
    assert Ascii("latest")[0] == 108 && Ascii("by-date")[0] == 98;
  }

  // ---- the by-date listing -----------------------------------------------

  /** The `by-date` listing holds every blob once. */
  lemma DateOrderIsPermutation(entries: seq<BlobEntry>, ids: seq<BlobId>, d: Depot)
    requires Ids(entries, ids) && IsDepotOf(entries, ids, d)
    ensures multiset(d.dateOrder) == multiset(d.blobs) == multiset(ids)
  {
    BlobsAreIds(entries, ids, d);
    hide LastWins, Indexed, ByVersion, LinkOrder;
    LinkOrderSorts(Seconds(d.names), |d.blobs|);
    Gather(d.blobs, LinkOrder(Seconds(d.names), |d.blobs|), d.dateOrder);
  }

  /** Picking elements by a permutation of all indices permutes them. */
  lemma Gather(xs: seq<BlobId>, order: seq<nat>, ys: seq<BlobId>)
    requires multiset(order) == multiset(Range(|xs|)) && |ys| == |order|
    requires forall i :: 0 <= i < |order| ==> order[i] < |xs| && ys[i] == xs[order[i]]
    ensures multiset(ys) == multiset(xs)
  {
    ImageOf(xs, order, ys);
    ImageOf(xs, Range(|xs|), xs);
    assert Image(xs, multiset(order)) == Image(xs, multiset(Range(|xs|)));
  }

  /** The multiset of elements at a multiset of indices below `|xs|`. */
  ghost function Image(xs: seq<BlobId>, picks: multiset<nat>): multiset<BlobId> {
    if xs == [] then multiset{}
    else Image(xs[..|xs| - 1], picks) + multiset{}[xs[|xs| - 1] := picks[|xs| - 1]]
  }

  lemma {:induction false} ImageAdd(xs: seq<BlobId>, picks: multiset<nat>, i: nat)
    ensures Image(xs, picks + multiset{i}) == Image(xs, picks) + if i < |xs| then multiset{xs[i]} else multiset{}
  {
    if xs != [] {
      var last := |xs| - 1;
      ImageAdd(xs[..last], picks, i);
      assert (picks + multiset{i})[last] == picks[last] + if i == last then 1 else 0;
    }
  }

  lemma {:induction false} ImageOf(xs: seq<BlobId>, order: seq<nat>, ys: seq<BlobId>)
    requires |ys| == |order| && forall i :: 0 <= i < |order| ==> order[i] < |xs| && ys[i] == xs[order[i]]
    ensures Image(xs, multiset(order)) == multiset(ys)
  {
    if order == [] {
      ImageEmpty(xs);
    } else {
      var last := |order| - 1;
      ImageOf(xs, order[..last], ys[..last]);
      ImageAdd(xs, multiset(order[..last]), order[last]);
      assert order == order[..last] + [order[last]] && ys == ys[..last] + [ys[last]];
    }
  }

  lemma {:induction false} ImageEmpty(xs: seq<BlobId>)
    ensures Image(xs, multiset{}) == multiset{}
  {
    if xs != [] {
      ImageEmpty(xs[..|xs| - 1]);
    }
  }

  ghost predicate DatedBefore10000(e: BlobEntry) {
    e.date.Some? ==> DateOf(e.date.value / NANOS_PER_SECOND).year < 10_000
  }

  /** Chronological to the second, with undated blobs last. */
  ghost predicate InDateOrder(a: Option<nat>, b: Option<nat>) {
    b.None? || (a.Some? && a.value / NANOS_PER_SECOND <= b.value / NANOS_PER_SECOND)
  }

  lemma LinkOrderIsDateOrder(a: BlobEntry, m: nat, b: BlobEntry, n: nat)
    requires DatedBefore10000(a) && DatedBefore10000(b)
    requires LexLe(DateLink(a, m), DateLink(b, n))
    ensures InDateOrder(a.date, b.date)
  {
    hide VersionName, FormatStamp, CivilFromDays;
    var x, y := [UNDERSCORE] + (Ascii("v") + VersionName(a, m)), [UNDERSCORE] + (Ascii("v") + VersionName(b, n));
    assert DateLink(a, m) == StampText(a.date) + x && DateLink(b, n) == StampText(b.date) + y;
    StampHasNoUnderscore(a.date);
    StampHasNoUnderscore(b.date);
    if b.date.Some? {
      assert a.date.Some? by {
        assert DateLink(a, m)[0] == StampText(a.date)[0] && DateLink(b, n)[0] == StampText(b.date)[0];
      }
      var s, t := a.date.value / NANOS_PER_SECOND, b.date.value / NANOS_PER_SECOND;
      FourDigitYears(s);
      FourDigitYears(t);
      StampOrder(t, s);
      if t < s {
        LexDecided(FormatStamp(t), FormatStamp(s), y, x);
      }
    }
  }

  /** The `by-date` listing is chronological to the second, undated blobs
      last, as long as no date has a five-digit year. */
  lemma ListingIsChronological(entries: seq<BlobEntry>, ids: seq<BlobId>, d: Depot, i: nat, j: nat)
    requires Ids(entries, ids) && IsDepotOf(entries, ids, d) && i < j < |d.dateOrder|
    requires forall b :: b in ids ==> DatedBefore10000(entries[b])
    ensures d.dateOrder[i] in ids && d.dateOrder[j] in ids
    ensures InDateOrder(entries[d.dateOrder[i]].date, entries[d.dateOrder[j]].date)
  {
    hide DateLink, VersionName, DatedBefore10000, LastWins, Indexed, ByVersion, LinkOrder, VersionCount;
    BlobsAreIds(entries, ids, d);
    var links := Seconds(d.names);
    var order := LinkOrder(links, |d.blobs|);
    LinkOrderSorts(links, |d.blobs|);
    var a, b := d.blobs[order[i]], d.blobs[order[j]];
    assert a in d.blobs && b in d.blobs;
    assert LexLe(links[order[i]], links[order[j]]);
    LinkOrderIsDateOrder(entries[a], VersionCount(entries, d.blobs, entries[a].version),
                         entries[b], VersionCount(entries, d.blobs, entries[b].version));
  }

  // ---- finding blobs and dats by identity --------------------------------

  predicate IsBlob(e: BlobEntry, depot: u32, version: u32, crc: u32) {
    e.depot == depot && e.version == version && e.crc == crc
  }

  /** `find_blob`: a later blob with the same identity replaces an earlier one. */
  function FindBlob(entries: seq<BlobEntry>, depot: u32, version: u32, crc: u32): (r: Option<BlobId>)
    ensures r.Some? ==> r.value < |entries| && IsBlob(entries[r.value], depot, version, crc)
    ensures r.Some? ==> forall i :: r.value < i < |entries| ==> !IsBlob(entries[i], depot, version, crc)
    ensures r.None? ==> forall i :: 0 <= i < |entries| ==> !IsBlob(entries[i], depot, version, crc)
  {
    if entries == [] then None
    else
      var last := |entries| - 1;
      if IsBlob(entries[last], depot, version, crc) then Some(last)
      else FindBlob(entries[..last], depot, version, crc)
  }

  method IndexBlobKeys(entries: seq<BlobEntry>) returns (byKey: map<(u32, u32, u32), BlobId>)
    ensures forall d: u32, v: u32, c: u32 ::
      FindBlob(entries, d, v, c) == if (d, v, c) in byKey then Some(byKey[(d, v, c)]) else None
  {
    byKey := map[];
    for i := 0 to |entries|
      invariant forall d: u32, v: u32, c: u32 ::
        FindBlob(entries[..i], d, v, c) == if (d, v, c) in byKey then Some(byKey[(d, v, c)]) else None
    {
      assert entries[..i + 1][..i] == entries[..i];
      byKey := byKey[(entries[i].depot, entries[i].version, entries[i].crc) := i];
    }
    assert entries[..|entries|] == entries;
  }

  predicate IsDat(e: DatEntry, depot: u32, version: u32, crc: u32) {
    e.depot == depot && e.version == version && e.crc == crc
  }

  /** What `find_dat` answers: the first complete file of that identity, and
      the last in-progress one only when there is no complete file. */
  ghost predicate BestDat(dats: seq<DatEntry>, n: nat, depot: u32, version: u32, crc: u32, r: Option<DatId>)
    requires n <= |dats|
  {
    match r
    case None => forall i :: 0 <= i < n ==> !IsDat(dats[i], depot, version, crc)
    case Some(b) =>
      && b < n && IsDat(dats[b], depot, version, crc)
      && if dats[b].incomplete
         then forall i :: 0 <= i < n && IsDat(dats[i], depot, version, crc) ==> dats[i].incomplete && i <= b
         else forall i :: 0 <= i < b && IsDat(dats[i], depot, version, crc) ==> dats[i].incomplete
  }

  method IndexDats(dats: seq<DatEntry>) returns (byKey: map<(u32, u32, u32), DatId>)
    ensures forall d: u32, v: u32, c: u32 ::
      BestDat(dats, |dats|, d, v, c, if (d, v, c) in byKey then Some(byKey[(d, v, c)]) else None)
  {
    byKey := map[];
    for i := 0 to |dats|
      invariant forall d: u32, v: u32, c: u32 ::
        BestDat(dats, i, d, v, c, if (d, v, c) in byKey then Some(byKey[(d, v, c)]) else None)
    {
      var key := (dats[i].depot, dats[i].version, dats[i].crc);
      assert BestDat(dats, i, key.0, key.1, key.2, if key in byKey then Some(byKey[key]) else None);
      if key in byKey && !dats[byKey[key]].incomplete {
        // A complete file stays; the newcomer's insertion is undone.
      } else {
        byKey := byKey[key := i];
      }
    }
  }

  // ---- the newest version ------------------------------------------------

  /** The depot's blobs of one version, in listing order. */
  function WithVersion(entries: seq<BlobEntry>, blobs: seq<BlobId>, version: u32): (r: seq<BlobId>)
    requires forall i :: 0 <= i < |blobs| ==> blobs[i] < |entries|
    ensures forall b :: b in r <==> b in blobs && entries[b].version == version
  {
    if blobs == [] then []
    else (if entries[blobs[0]].version == version then [blobs[0]] else []) + WithVersion(entries, blobs[1..], version)
  }

  /** `a` is undated, or dated no later than `b` is. */
  ghost predicate NoLater(a: Option<nat>, b: Option<nat>) {
    a.None? || (b.Some? && a.value <= b.value)
  }

  /** Undated sorts before every date. */
  predicate DateLess(a: Option<nat>, b: Option<nat>) {
    b.Some? && (a.None? || a.value < b.value)
  }

  /** `r` is at `k`, and everything after it is dated earlier. */
  ghost predicate LastBest(entries: seq<BlobEntry>, blobs: seq<BlobId>, r: BlobId, k: nat)
    requires r < |entries| && forall i :: 0 <= i < |blobs| ==> blobs[i] < |entries|
  {
    k < |blobs| && blobs[k] == r && forall j :: k < j < |blobs| ==> DateLess(entries[blobs[j]].date, entries[r].date)
  }

  /** `max_by_key` on the date: the last of the most recently dated. */
  function MostRecent(entries: seq<BlobEntry>, blobs: seq<BlobId>): (r: BlobId)
    requires blobs != [] && forall i :: 0 <= i < |blobs| ==> blobs[i] < |entries|
    ensures r in blobs && forall b :: b in blobs ==> !DateLess(entries[r].date, entries[b].date)
  {
    var last := |blobs| - 1;
    if last == 0 then blobs[0]
    else
      var best := MostRecent(entries, blobs[..last]);
      assert forall b :: b in blobs ==> b in blobs[..last] || b == blobs[last];
      if DateLess(entries[blobs[last]].date, entries[best].date) then best else blobs[last]
  }

  lemma {:induction false} MostRecentIsLast(entries: seq<BlobEntry>, blobs: seq<BlobId>) returns (k: nat)
    requires blobs != [] && forall i :: 0 <= i < |blobs| ==> blobs[i] < |entries|
    ensures LastBest(entries, blobs, MostRecent(entries, blobs), k)
  {
    hide DateLess;
    var last := |blobs| - 1;
    k := last;
    if last > 0 {
      var before := MostRecentIsLast(entries, blobs[..last]);
      var best := MostRecent(entries, blobs[..last]);
      if DateLess(entries[blobs[last]].date, entries[best].date) {
        k := before;
      }
    }
  }

  /** `latest`: among the blobs of the last listed version, the most recent. */
  function Latest(entries: seq<BlobEntry>, blobs: seq<BlobId>): Option<BlobId>
    requires forall i :: 0 <= i < |blobs| ==> blobs[i] < |entries|
  {
    if blobs == [] then None
    else
      var top := WithVersion(entries, blobs, entries[blobs[|blobs| - 1]].version);
      if top == [] then None
      else
        assert forall i :: 0 <= i < |top| ==> top[i] in blobs;
        Some(MostRecent(entries, top))
  }

  /** Ordered by (version, crc). */
  ghost predicate InVersionOrder(entries: seq<BlobEntry>, a: BlobId, b: BlobId)
    requires a < |entries| && b < |entries|
  {
    entries[a].version < entries[b].version || (entries[a].version == entries[b].version && entries[a].crc <= entries[b].crc)
  }

  /** A depot lists its blobs by version and crc. */
  lemma ListedInVersionOrder(entries: seq<BlobEntry>, ids: seq<BlobId>, d: Depot, i: nat, j: nat)
    requires Ids(entries, ids) && IsDepotOf(entries, ids, d) && i < j < |d.blobs|
    ensures InVersionOrder(entries, d.blobs[i], d.blobs[j])
  {
    hide NamesOf, Indexed, LastWins, OrderedByLink;
    SortIsSortedPermutation<BlobId>(ids, VersionKey(entries));
    var a, b := d.blobs[i], d.blobs[j];
    assert LexLe(VersionKey(entries)(a), VersionKey(entries)(b));
    TwoKeyOrder(entries[a].version, entries[a].crc, entries[b].version, entries[b].crc);
  }

  lemma TwoKeyOrder(v: int, c: int, w: int, e: int)
    ensures LexLe([v, c], [w, e]) <==> v < w || (v == w && c <= e)
  {
    assert [v, c][1..] == [c] && [w, e][1..] == [e] && [c][1..] == [] && [e][1..] == [];
    assert LexLess([e], [c]) <==> e < c;
  }

  ghost predicate AllInOrder(entries: seq<BlobEntry>, blobs: seq<BlobId>) {
    && (forall i :: 0 <= i < |blobs| ==> blobs[i] < |entries|)
    && forall i, j :: 0 <= i < j < |blobs| ==> InVersionOrder(entries, blobs[i], blobs[j])
  }

  lemma TailInOrder(entries: seq<BlobEntry>, blobs: seq<BlobId>)
    requires AllInOrder(entries, blobs) && blobs != []
    ensures AllInOrder(entries, blobs[1..])
    ensures forall b :: b in blobs[1..] ==> b < |entries| && InVersionOrder(entries, blobs[0], b)
  {
    hide InVersionOrder;
    assert forall i :: 0 <= i < |blobs[1..]| ==> blobs[1..][i] == blobs[i + 1];
    forall b | b in blobs[1..] ensures b < |entries| && InVersionOrder(entries, blobs[0], b) {
      var k :| 0 <= k < |blobs[1..]| && blobs[1..][k] == b;
      assert blobs[k + 1] == b;
    }
  }

  lemma HeadInOrder(entries: seq<BlobEntry>, x: BlobId, rest: seq<BlobId>)
    requires AllInOrder(entries, rest) && x < |entries|
    requires forall b :: b in rest ==> b < |entries| && InVersionOrder(entries, x, b)
    ensures AllInOrder(entries, [x] + rest)
  {
    hide InVersionOrder;
    var all := [x] + rest;
    forall i, j | 0 <= i < j < |all| ensures all[i] < |entries| && all[j] < |entries| && InVersionOrder(entries, all[i], all[j]) {
      assert all[j] == rest[j - 1] && rest[j - 1] in rest;
      if i > 0 {
        assert all[i] == rest[i - 1];
      }
    }
  }

  lemma {:induction false} WithVersionInOrder(entries: seq<BlobEntry>, blobs: seq<BlobId>, version: u32)
    requires AllInOrder(entries, blobs)
    ensures AllInOrder(entries, WithVersion(entries, blobs, version))
  {
    if blobs != [] {
      hide AllInOrder, InVersionOrder;
      TailInOrder(entries, blobs);
      WithVersionInOrder(entries, blobs[1..], version);
      var rest := WithVersion(entries, blobs[1..], version);
      InRange(entries, blobs);
      if entries[blobs[0]].version == version {
        HeadInOrder(entries, blobs[0], rest);
        assert WithVersion(entries, blobs, version) == [blobs[0]] + rest;
      } else {
        assert WithVersion(entries, blobs, version) == rest;
      }
    }
  }

  lemma InRange(entries: seq<BlobEntry>, blobs: seq<BlobId>)
    requires AllInOrder(entries, blobs)
    ensures forall i :: 0 <= i < |blobs| ==> blobs[i] < |entries|
  {
  }

  /** Among equally recent blobs of the highest version, `latest` is the one of
      the greatest crc. */
  lemma LatestBreaksTies(entries: seq<BlobEntry>, ids: seq<BlobId>, d: Depot, o: BlobId)
    requires Ids(entries, ids) && IsDepotOf(entries, ids, d) && o in ids && Latest(entries, d.blobs).Some?
    requires var b := Latest(entries, d.blobs).value;
      b < |entries| && entries[o].version == entries[b].version && entries[o].date == entries[b].date
    ensures entries[o].crc <= entries[Latest(entries, d.blobs).value].crc
  {
    hide IsDepotOf, MostRecent, WithVersion;
    BlobsAreIds(entries, ids, d);
    DepotIds(entries, ids, d);
    forall i, j | 0 <= i < j < |d.blobs| ensures InVersionOrder(entries, d.blobs[i], d.blobs[j]) {
      ListedInVersionOrder(entries, ids, d, i, j);
    }
    assert AllInOrder(entries, d.blobs);
    var b := Latest(entries, d.blobs).value;
    var top := WithVersion(entries, d.blobs, entries[d.blobs[|d.blobs| - 1]].version);
    WithVersionInOrder(entries, d.blobs, entries[d.blobs[|d.blobs| - 1]].version);
    assert forall i :: 0 <= i < |top| ==> top[i] in top;
    assert b in top && o in top;
    var k := MostRecentIsLast(entries, top);
    var j :| 0 <= j < |top| && top[j] == o;
    assert j < k ==> InVersionOrder(entries, top[j], top[k]);
  }

  // ---- what names say ----------------------------------------------------

  lemma {:induction false} CountWitness(entries: seq<BlobEntry>, ids: seq<BlobId>, v: u32, k: nat)
    requires Ids(entries, ids) && k < |ids| && entries[ids[k]].version == v && VersionCount(entries, ids, v) > 1
    ensures exists j :: 0 <= j < |ids| && j != k && entries[ids[j]].version == v
  {
    var last := |ids| - 1;
    if k < last {
      if entries[ids[last]].version != v {
        CountWitness(entries, ids[..last], v, k);
        var j :| 0 <= j < last && j != k && entries[ids[..last][j]].version == v;
        assert ids[j] == ids[..last][j];
      }
    } else {
      SomeCounted(entries, ids[..last], v);
      var j :| 0 <= j < last && entries[ids[..last][j]].version == v;
      assert ids[j] == ids[..last][j];
    }
  }

  lemma {:induction false} SomeCounted(entries: seq<BlobEntry>, ids: seq<BlobId>, v: u32)
    requires Ids(entries, ids) && VersionCount(entries, ids, v) > 0
    ensures exists j :: 0 <= j < |ids| && entries[ids[j]].version == v
  {
    var last := |ids| - 1;
    if entries[ids[last]].version != v {
      SomeCounted(entries, ids[..last], v);
      var j :| 0 <= j < last && entries[ids[..last][j]].version == v;
      assert ids[j] == ids[..last][j];
    }
  }

  /** Another blob of the depot has the same version. */
  ghost predicate Shared(entries: seq<BlobEntry>, ids: seq<BlobId>, b: BlobId)
    requires Ids(entries, ids) && b < |entries|
  {
    exists o :: o in ids && o != b && entries[o].version == entries[b].version
  }

  /** A canonical decimal. */
  ghost predicate SaysDecimal(t: Text, n: nat) {
    Digits(t) && t != [] && DecValue(t) == n && (t[0] == 48 ==> n == 0)
  }

  /** A lone version is named by its decimal; one that several blobs share adds
      a dash and eight hex digits of the crc. */
  ghost predicate NameSays(t: Text, e: BlobEntry, shared: bool) {
    if !shared then SaysDecimal(t, e.version)
    else
      && |t| > 9 && SaysDecimal(t[..|t| - 9], e.version) && t[|t| - 9] == 45
      && (forall i :: |t| - 8 <= i < |t| ==> IsDigit(t[i])) && HexValue(t[|t| - 8..]) == e.crc
  }

  lemma NameOfCount(e: BlobEntry, count: nat)
    ensures NameSays(VersionName(e, count), e, count > 1)
  {
    DecValueOfDec(e.version);
    DecIsCanonical(e.version);
    CrcFits(e);
    HexValueOfFixed(e.crc, 8);
    var t := VersionName(e, count);
    if count > 1 {
      assert t[..|t| - 9] == Dec(e.version) && t[|t| - 8..] == Fixed(e.crc, 16, 8);
    }
  }

  lemma SharedIsCounted(entries: seq<BlobEntry>, ids: seq<BlobId>, b: BlobId)
    requires Ids(entries, ids) && b in ids
    ensures b < |entries| && (VersionCount(entries, ids, entries[b].version) > 1 <==> Shared(entries, ids, b))
  {
    hide VersionCount;
    var k :| 0 <= k < |ids| && ids[k] == b;
    var v := entries[b].version;
    if VersionCount(entries, ids, v) > 1 {
      CountWitness(entries, ids, v, k);
      var j :| 0 <= j < |ids| && j != k && entries[ids[j]].version == v;
      assert ids[j] in ids && ids[j] != b;
    }
    if Shared(entries, ids, b) {
      var o :| o in ids && o != b && entries[o].version == v;
      var j :| 0 <= j < |ids| && ids[j] == o;
      CountsTwo(entries, ids, j, k, v);
    }
  }

  /** What every version name says, and how its date link is made of it: the
      stamp of its second, or `unknown`, then `_v` and the name. */
  lemma NamesSay(entries: seq<BlobEntry>, ids: seq<BlobId>, d: Depot, b: BlobId)
    requires Ids(entries, ids) && IsDepotOf(entries, ids, d) && b in ids
    ensures b < |entries| && d.NameOf(b).Some? && NameSays(d.NameOf(b).value, entries[b], Shared(entries, ids, b))
    ensures d.DateLinkOf(b).Some?
    ensures entries[b].date.None? ==> d.DateLinkOf(b).value == [117, 110, 107, 110, 111, 119, 110, 95, 118] + d.NameOf(b).value
    ensures entries[b].date.Some? ==>
      d.DateLinkOf(b).value == FormatStamp(entries[b].date.value / 1_000_000_000) + [95, 118] + d.NameOf(b).value
  {
    hide IsDepotOf, FormatStamp, Depot.NameOf, Depot.DateLinkOf, NameSays, VersionName, DateLink, VersionCount;
    NameOfListed(entries, ids, d, b);
    DepotIds(entries, ids, d);
    BlobsAreIds(entries, ids, d);
    SharedIsCounted(entries, d.blobs, b);
    assert Shared(entries, ids, b) == Shared(entries, d.blobs, b);
    NameOfCount(entries[b], VersionCount(entries, d.blobs, entries[b].version));
    LinkOfCount(entries[b], VersionCount(entries, d.blobs, entries[b].version));
  }

  lemma LinkOfCount(e: BlobEntry, count: nat)
    ensures e.date.None? ==> DateLink(e, count) == [117, 110, 107, 110, 111, 119, 110, 95, 118] + VersionName(e, count)
    ensures e.date.Some? ==> DateLink(e, count) == FormatStamp(e.date.value / 1_000_000_000) + [95, 118] + VersionName(e, count)
  {
    hide FormatStamp, VersionName;
    assert Ascii("unknown") == [117, 110, 107, 110, 111, 119, 110] && Ascii("v") == [118];
  }

  /** `latest` has the highest version of the depot, and no blob of that
      version is dated later; it is absent only for an empty depot. */
  lemma LatestIsNewest(entries: seq<BlobEntry>, ids: seq<BlobId>, d: Depot)
    requires Ids(entries, ids) && IsDepotOf(entries, ids, d)
    ensures Latest(entries, d.blobs).None? <==> ids == []
    ensures Latest(entries, d.blobs).Some? ==>
      var b := Latest(entries, d.blobs).value;
      && b in ids
      && forall o :: o in ids ==>
           && entries[o].version <= entries[b].version
           && (entries[o].version == entries[b].version ==> NoLater(entries[o].date, entries[b].date))
  {
    hide IsDepotOf, ByVersion, WithVersion, MostRecent, DateLess, NoLater, Distinct;
    BlobsAreIds(entries, ids, d);
    DepotIds(entries, ids, d);
    LastListedIsTop(entries, ids);
    ListsByVersion(entries, ids, d);
    assert |multiset(d.blobs)| == |multiset(ids)|;
    if d.blobs != [] {
      var last := d.blobs[|d.blobs| - 1];
      var top := WithVersion(entries, d.blobs, entries[last].version);
      assert last in top;
      var b := Latest(entries, d.blobs).value;
      assert b in top;
      forall o | o in ids && entries[o].version == entries[b].version ensures NoLater(entries[o].date, entries[b].date) {
        assert o in top;
        NotBeforeIsNoLater(entries[o].date, entries[b].date);
      }
    }
  }

  lemma ListsByVersion(entries: seq<BlobEntry>, ids: seq<BlobId>, d: Depot)
    requires Ids(entries, ids) && IsDepotOf(entries, ids, d)
    ensures d.blobs == ByVersion(entries, ids)
  {
  }

  lemma NotBeforeIsNoLater(a: Option<nat>, b: Option<nat>)
    ensures !DateLess(b, a) <==> NoLater(a, b)
  {
  }

  lemma LastListedIsTop(entries: seq<BlobEntry>, ids: seq<BlobId>)
    requires Ids(entries, ids)
    ensures ByVersion(entries, ids) != [] ==>
      forall o :: o in ids ==> entries[o].version <= VersionOf(entries, ByVersion(entries, ids)[|ByVersion(entries, ids)| - 1])
  {
    var blobs := ByVersion(entries, ids);
    SortIsSortedPermutation<BlobId>(ids, VersionKey(entries));
    if blobs != [] {
      var last := blobs[|blobs| - 1];
      assert last in ids;
      forall o | o in ids ensures entries[o].version <= entries[last].version {
        assert o in blobs;
        var i :| 0 <= i < |blobs| && blobs[i] == o;
        VersionKeyOrder(entries, o, last);
      }
    }
  }

  function VersionOf(entries: seq<BlobEntry>, id: BlobId): int {
    if id < |entries| then entries[id].version else -1
  }

  lemma VersionKeyOrder(entries: seq<BlobEntry>, a: BlobId, b: BlobId)
    requires a < |entries| && b < |entries|
    requires a == b || LexLe(VersionKey(entries)(a), VersionKey(entries)(b))
    ensures entries[a].version <= entries[b].version
  {
  }
}
