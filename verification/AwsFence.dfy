/** Fencing and unfencing an EC2 instance by its security groups (fence_aws_vpc_net), API
    calls succeeding. */
module AwsFence {
  import opened Decimal
  import opened AwsBackup
  import opened Wrappers

  datatype Nic = Nic(id: string, groups: seq<string>)

  /** The value of a tag: a backup document, or text that is no JSON. */
  datatype TagValue = Text(text: string) | Doc(backup: Backup)

  type Tags = map<string, TagValue>

  datatype Listed = Listed(key: string, value: TagValue)

  datatype Outcome = Completed | Failed

  const LASTFENCE := "lastfence"

  function BackupPrefix(instance: string): string {
    "Original_SG_Backup_" + instance
  }

  /** The key of chunk c of interface number i; tags count interfaces from 1. */
  function Key(instance: string, ts: nat, i: nat, c: nat): string {
    BackupPrefix(instance) + "_" + Dec(ts) + "_" + Dec(i + 1) + "_" + Dec(c)
  }

  /** Tag keys never collide across interfaces, chunks or timestamps. */
  lemma KeysAreDistinct(instance: string, ts: nat, i: nat, c: nat, ts': nat, i': nat, c': nat)
    requires Key(instance, ts, i, c) == Key(instance, ts', i', c')
    ensures ts == ts' && i == i' && c == c'
  {
    var p := BackupPrefix(instance);
    SplitAtUnderscore(p + "_" + Dec(ts) + "_" + Dec(i + 1), c, p + "_" + Dec(ts') + "_" + Dec(i' + 1), c');
    SplitAtUnderscore(p + "_" + Dec(ts), i + 1, p + "_" + Dec(ts'), i' + 1);
    SplitAtUnderscore(p, ts, p, ts');
  }

  lemma KeyHasPrefix(instance: string, ts: nat, i: nat, c: nat)
    ensures BackupPrefix(instance) <= Key(instance, ts, i, c)
    ensures Key(instance, ts, i, c) != LASTFENCE
  {
    assert BackupPrefix(instance)[0] == 'O' && LASTFENCE[0] == 'l';
  }

  function Parts(nic: Nic, ts: nat): seq<seq<string>> {
    Chunks(nic.id, StripAll(nic.groups), 0, ts)
  }

  function Entry(nic: Nic, ts: nat, c: nat): Backup
    requires c < |Parts(nic, ts)|
  {
    Backup(nic.id, Parts(nic, ts)[c], c, |Parts(nic, ts)|, ts)
  }

  /** Chunk c of interface i has been written once n interfaces and m chunks of the next
      have. */
  ghost predicate Due(nics: seq<Nic>, ts: nat, i: nat, c: nat, n: nat, m: nat) {
    i < |nics| && c < |Parts(nics[i], ts)| && (i < n || (i == n && c < m))
  }

  /** The tags after so much of the backup: the new entries, and the old tags. */
  ghost predicate Backed(before: Tags, tags: Tags, instance: string, nics: seq<Nic>, ts: nat, n: nat, m: nat) {
    && (forall i: nat, c: nat {:trigger Key(instance, ts, i, c)} | Due(nics, ts, i, c, n, m) ::
          var k := Key(instance, ts, i, c); k in tags && tags[k] == Doc(Entry(nics[i], ts, c)))
    && (forall k | k in tags :: IsDue(k, instance, nics, ts, n, m) || (k in before && tags[k] == before[k]))
    && (forall k | k in before :: k in tags)
  }

  ghost predicate IsDue(k: string, instance: string, nics: seq<Nic>, ts: nat, n: nat, m: nat) {
    exists i: nat, c: nat {:trigger Key(instance, ts, i, c)} :: Due(nics, ts, i, c, n, m) && k == Key(instance, ts, i, c)
  }

  lemma WriteNext(before: Tags, tags: Tags, instance: string, nics: seq<Nic>, ts: nat, n: nat, m: nat)
    requires Backed(before, tags, instance, nics, ts, n, m)
    requires n < |nics| && m < |Parts(nics[n], ts)|
    ensures Backed(before, tags[Key(instance, ts, n, m) := Doc(Entry(nics[n], ts, m))], instance, nics, ts, n, m + 1)
  {
    var key := Key(instance, ts, n, m);
    var tags' := tags[key := Doc(Entry(nics[n], ts, m))];
    forall i: nat, c: nat | Due(nics, ts, i, c, n, m + 1)
      ensures var k := Key(instance, ts, i, c); k in tags' && tags'[k] == Doc(Entry(nics[i], ts, c))
    {
      if Key(instance, ts, i, c) == key {
        KeysAreDistinct(instance, ts, i, c, ts, n, m);
      }
    }
    forall k | k in tags' ensures IsDue(k, instance, nics, ts, n, m + 1) || (k in before && tags'[k] == before[k]) {
      if k == key {
        assert Due(nics, ts, n, m, n, m + 1);
      } else if IsDue(k, instance, nics, ts, n, m) {
        var i: nat, c: nat :| Due(nics, ts, i, c, n, m) && k == Key(instance, ts, i, c);
        assert Due(nics, ts, i, c, n, m + 1);
      }
    }
  }

  lemma NextNic(before: Tags, tags: Tags, instance: string, nics: seq<Nic>, ts: nat, n: nat)
    requires n < |nics| && Backed(before, tags, instance, nics, ts, n, |Parts(nics[n], ts)|)
    ensures Backed(before, tags, instance, nics, ts, n + 1, 0)
  {
    var m := |Parts(nics[n], ts)|;
    assert forall i: nat, c: nat :: Due(nics, ts, i, c, n, m) <==> Due(nics, ts, i, c, n + 1, 0);
    forall k | IsDue(k, instance, nics, ts, n, m) ensures IsDue(k, instance, nics, ts, n + 1, 0) {
      var i: nat, c: nat :| Due(nics, ts, i, c, n, m) && k == Key(instance, ts, i, c);
      assert Due(nics, ts, i, c, n + 1, 0);
    }
  }

  /** Which groups a fenced interface has: in remove mode it is skipped rather than left
      without any. */
  function NewGroups(groups: seq<string>, sgList: seq<string>, keepOnly: bool): seq<string> {
    if keepOnly then sgList
    else
      var updated := Removing(groups, sgList);
      if updated == [] then groups else updated
  }

  function Removing(groups: seq<string>, sgList: seq<string>): seq<string> {
    if groups == [] then []
    else (if groups[0] in sgList then [] else [groups[0]]) + Removing(groups[1..], sgList)
  }

  lemma {:induction false} RemovingMeans(groups: seq<string>, sgList: seq<string>)
    ensures Removing(groups, sgList) == [] <==> forall sg | sg in groups :: sg in sgList
    ensures Removing(groups, sgList) == groups <==> forall sg | sg in groups :: sg !in sgList
    ensures |Removing(groups, sgList)| <= |groups|
  {
    if groups != [] {
      RemovingMeans(groups[1..], sgList);
      assert groups == [groups[0]] + groups[1..];
    }
  }

  /** The groups that are not listed are what is left, in their order; at holds the places
      they had. */
  ghost predicate LeftAt(groups: seq<string>, left: seq<string>, sgList: seq<string>, at: seq<nat>) {
    && |at| == |left| && (forall j, k | 0 <= j < k < |at| :: at[j] < at[k])
    && (forall k | 0 <= k < |at| :: at[k] < |groups| && left[k] == groups[at[k]] && left[k] !in sgList)
    && forall i | 0 <= i < |groups| && groups[i] !in sgList :: i in at
  }

  ghost predicate IsLeft(groups: seq<string>, left: seq<string>, sgList: seq<string>) {
    && (exists at: seq<nat> :: LeftAt(groups, left, sgList, at))
    && forall sg :: multiset(left)[sg] == if sg in sgList then 0 else multiset(groups)[sg]
  }

  lemma RemovingLeaves(groups: seq<string>, sgList: seq<string>)
    ensures IsLeft(groups, Removing(groups, sgList), sgList)
  {
    var at := PlacesLeft(groups, sgList);
    RemovingCounts(groups, sgList);
  }

  lemma {:induction false} PlacesLeft(groups: seq<string>, sgList: seq<string>) returns (at: seq<nat>)
    ensures LeftAt(groups, Removing(groups, sgList), sgList, at)
  {
    if groups == [] { return []; }
    var rest := PlacesLeft(groups[1..], sgList);
    var left := Removing(groups[1..], sgList);
    at := OneFurther(groups, left, sgList, rest);
    assert Removing(groups, sgList) == if groups[0] in sgList then left else [groups[0]] + left;
    if groups[0] in sgList {
      NoMoreLeft(groups, left, sgList, at);
    } else {
      OneMoreLeft(groups, left, sgList, at);
      at := [0] + at;
    }
  }

  lemma OneFurther(groups: seq<string>, left: seq<string>, sgList: seq<string>, rest: seq<nat>) returns (at: seq<nat>)
    requires groups != [] && LeftAt(groups[1..], left, sgList, rest)
    ensures LeftFrom(groups, left, sgList, at)
  {
    at := seq(|rest|, k requires 0 <= k < |rest| => rest[k] + 1);
    assert forall k | 0 <= k < |at| :: groups[at[k]] == groups[1..][rest[k]];
    forall i | 1 <= i < |groups| && groups[i] !in sgList ensures i in at {
      assert groups[1..][i-1] == groups[i] && i - 1 in rest;
      var k :| 0 <= k < |rest| && rest[k] == i - 1;
      assert at[k] == i;
    }
  }

  lemma NoMoreLeft(groups: seq<string>, left: seq<string>, sgList: seq<string>, at: seq<nat>)
    requires groups != [] && groups[0] in sgList && LeftFrom(groups, left, sgList, at)
    ensures LeftAt(groups, left, sgList, at)
  {
  }

  /** The same, the first group not considered. */
  ghost predicate LeftFrom(groups: seq<string>, left: seq<string>, sgList: seq<string>, at: seq<nat>) {
    && |at| == |left| && (forall j, k | 0 <= j < k < |at| :: at[j] < at[k])
    && (forall k | 0 <= k < |at| :: 1 <= at[k] < |groups| && left[k] == groups[at[k]] && left[k] !in sgList)
    && forall i | 1 <= i < |groups| && groups[i] !in sgList :: i in at
  }

  lemma OneMoreLeft(groups: seq<string>, left: seq<string>, sgList: seq<string>, at: seq<nat>)
    requires groups != [] && groups[0] !in sgList && LeftFrom(groups, left, sgList, at)
    ensures LeftAt(groups, [groups[0]] + left, sgList, [0] + at)
  {
  }

  lemma {:induction false} RemovingCounts(groups: seq<string>, sgList: seq<string>)
    ensures forall sg :: multiset(Removing(groups, sgList))[sg] == if sg in sgList then 0 else multiset(groups)[sg]
  {
    if groups != [] {
      RemovingCounts(groups[1..], sgList);
      assert groups == [groups[0]] + groups[1..];
    }
  }

  /** What a fenced interface is left with: in remove mode its unlisted groups, unless there
      are none; else the listed groups. */
  ghost predicate IsFenced(before: seq<string>, after: seq<string>, sgList: seq<string>, keepOnly: bool) {
    if keepOnly then after == sgList
    else if exists i :: 0 <= i < |before| && before[i] !in sgList then IsLeft(before, after, sgList)
    else after == before
  }

  lemma NewGroupsFence(groups: seq<string>, sgList: seq<string>, keepOnly: bool)
    ensures IsFenced(groups, NewGroups(groups, sgList, keepOnly), sgList, keepOnly)
  {
    RemovingLeaves(groups, sgList);
    RemovingMeans(groups, sgList);
  }

  predicate Affected(groups: seq<string>, sgList: seq<string>, keepOnly: bool) {
    if keepOnly then multiset(groups) != multiset(sgList)
    else exists sg | sg in sgList :: sg in groups
  }

  /** Some interface has a group to remove, and each that does would be left without any. */
  ghost predicate WouldEmpty(nics: seq<Nic>, sgList: seq<string>) {
    && (exists i | 0 <= i < |nics| :: Affected(nics[i].groups, sgList, false))
    && forall i | 0 <= i < |nics| && Affected(nics[i].groups, sgList, false) ::
         forall sg | sg in nics[i].groups :: sg in sgList
  }

  /** Exactly when modifying the groups changes nothing although something should change. */
  lemma FailsIffWouldEmpty(orig: seq<Nic>, now: seq<Nic>, sgList: seq<string>, keepOnly: bool)
    requires |orig| == |now| && forall i | 0 <= i < |orig| ::
               now[i].id == orig[i].id && now[i].groups == NewGroups(orig[i].groups, sgList, keepOnly)
    ensures (now == orig && exists i | 0 <= i < |now| :: Affected(now[i].groups, sgList, keepOnly))
            <==> !keepOnly && WouldEmpty(orig, sgList)
  {
    forall i | 0 <= i < |orig|
      ensures now[i] == orig[i] <==> now[i].groups == orig[i].groups
      ensures !keepOnly ==> (now[i].groups == orig[i].groups <==>
                               (Affected(orig[i].groups, sgList, false) ==> forall sg | sg in orig[i].groups :: sg in sgList))
      ensures keepOnly && now[i].groups == orig[i].groups ==> !Affected(now[i].groups, sgList, true)
    {
      RemovingMeans(orig[i].groups, sgList);
    }
  }

  // -------------------------------------------------------------------- reassembly

  /** interface_chunks, one interface's entry. */
  datatype Info = Info(total: nat, chunks: map<nat, seq<string>>)

  ghost predicate DistinctIds(nics: seq<Nic>) {
    forall i, j | 0 <= i < j < |nics| :: nics[i].id != nics[j].id
  }

  ghost predicate AllRestorable(nics: seq<Nic>) {
    forall i | 0 <= i < |nics| :: Restorable(nics[i].groups)
  }

  /** b is chunk c of interface i. */
  ghost predicate IsEntry(orig: seq<Nic>, ts: nat, i: nat, c: nat, b: Backup) {
    i < |orig| && c < |Parts(orig[i], ts)| && b == Entry(orig[i], ts, c)
  }

  /** What has been collected are chunks of the original interfaces, those seen included. */
  ghost predicate Tracks(infos: map<string, Info>, orig: seq<Nic>, ts: nat, seen: set<(nat, nat)>) {
    && (forall i | 0 <= i < |orig| && orig[i].id in infos ::
          PartOf(infos[orig[i].id].chunks, Parts(orig[i], ts)))
    && (forall p | p in seen :: p.0 < |orig| && orig[p.0].id in infos && p.1 in infos[orig[p.0].id].chunks)
  }

  ghost predicate PartOf(chunks: map<nat, seq<string>>, parts: seq<seq<string>>) {
    forall c | c in chunks :: c < |parts| && chunks[c] == parts[c]
  }

  /** Interfaces are rebuilt exactly, and as soon as their chunks are complete. */
  ghost predicate Rebuilt(matching: map<string, seq<string>>, infos: map<string, Info>, orig: seq<Nic>, ts: nat) {
    && (forall id | id in matching :: exists i | 0 <= i < |orig| ::
          orig[i].id == id && matching[id] == orig[i].groups && orig[i].groups != [])
    && (forall i | 0 <= i < |orig| && orig[i].id in infos ::
          |infos[orig[i].id].chunks| == |Parts(orig[i], ts)| ==> orig[i].id in matching)
  }

  lemma {:induction false} Interval(n: nat) returns (s: set<nat>)
    ensures |s| == n && forall c: nat :: c in s <==> c < n
  {
    if n == 0 {
      s := {};
    } else {
      var t := Interval(n - 1);
      s := t + {n - 1};
    }
  }

  /** As many chunks as there are parts are all of them. */
  lemma CompleteIff(chunks: map<nat, seq<string>>, parts: seq<seq<string>>)
    requires PartOf(chunks, parts)
    ensures |chunks| == |parts| <==> forall c: nat | c < |parts| :: c in chunks
  {
    var all := Interval(|parts|);
    assert chunks.Keys <= all;
    assert |chunks| == |chunks.Keys|;
    if |chunks| == |parts| {
      Subset(chunks.Keys, all);
    }
    if forall c: nat | c < |parts| :: c in chunks {
      assert chunks.Keys == all;
    }
  }

  lemma {:induction false} Subset(a: set<nat>, b: set<nat>)
    requires a <= b && |a| == |b|
    ensures a == b
  {
    assert |b - a| == |b| - |a|;
  }

  lemma PartsEmptyIff(nic: Nic, ts: nat)
    ensures Parts(nic, ts) == [] <==> nic.groups == []
  {
    ChunksAreGreedy(nic.id, StripAll(nic.groups), 0, ts);
  }

  /** The for loop over range(total), a missing chunk being a KeyError. */
  method Combine(chunks: map<nat, seq<string>>, total: nat) returns (r: Option<seq<string>>)
    ensures r.Some? <==> AllIn(chunks, total)
    ensures r.Some? ==> r.value == Joined(chunks, total)
  {
    var combined := [];
    for i := 0 to total
      invariant forall c: nat | c < i :: c in chunks
      invariant combined == Joined(chunks, i)
    {
      if i !in chunks { return None; }
      combined := combined + UnstripAll(chunks[i]);
    }
    return Some(combined);
  }

  /** One backup tag of the right timestamp.  Its place i, c among the original chunks is
      known to the proof only. */
  method Absorb(infos: map<string, Info>, matching: map<string, seq<string>>, b: Backup,
                ghost orig: seq<Nic>, ghost ts: nat, ghost seen: set<(nat, nat)>, ghost i: nat, ghost c: nat)
    returns (infos': map<string, Info>, matching': map<string, seq<string>>)
    ensures DistinctIds(orig) && AllRestorable(orig) && IsEntry(orig, ts, i, c, b) && Tracks(infos, orig, ts, seen)
            && Rebuilt(matching, infos, orig, ts) ==>
              Tracks(infos', orig, ts, seen + {(i, c)}) && Rebuilt(matching', infos', orig, ts)
  {
    var info := if b.nid in infos then infos[b.nid] else Info(b.total, map[]);
    info := info.(chunks := info.chunks[b.index := b.sgs]);
    infos' := infos[b.nid := info];
    matching' := matching;
    if |info.chunks| == b.total {
      var combined := Combine(info.chunks, b.total);
      if combined.Some? {
        matching' := matching[b.nid := combined.value];
      }
    }
    if DistinctIds(orig) && AllRestorable(orig) && IsEntry(orig, ts, i, c, b) && Tracks(infos, orig, ts, seen) {
      TracksNext(infos, info, b, orig, ts, seen, i, c);
      if Rebuilt(matching, infos, orig, ts) {
        RebuiltNext(matching, infos, info, matching', orig, ts, i);
      }
    }
  }

  lemma TracksNext(infos: map<string, Info>, info: Info, b: Backup, orig: seq<Nic>, ts: nat,
                   seen: set<(nat, nat)>, i: nat, c: nat)
    requires DistinctIds(orig) && IsEntry(orig, ts, i, c, b) && Tracks(infos, orig, ts, seen)
    requires info.chunks == (if b.nid in infos then infos[b.nid].chunks else map[])[b.index := b.sgs]
    ensures Tracks(infos[b.nid := info], orig, ts, seen + {(i, c)})
    ensures PartOf(info.chunks, Parts(orig[i], ts))
  {
  }

  lemma RebuiltNext(matching: map<string, seq<string>>, infos: map<string, Info>, info: Info,
                    matching': map<string, seq<string>>, orig: seq<Nic>, ts: nat, i: nat)
    requires DistinctIds(orig) && AllRestorable(orig) && i < |orig| && Parts(orig[i], ts) != []
    requires Rebuilt(matching, infos, orig, ts) && PartOf(info.chunks, Parts(orig[i], ts))
    requires if |info.chunks| == |Parts(orig[i], ts)| && AllIn(info.chunks, |Parts(orig[i], ts)|)
             then matching' == matching[orig[i].id := Joined(info.chunks, |Parts(orig[i], ts)|)]
             else matching' == matching
    ensures Rebuilt(matching', infos[orig[i].id := info], orig, ts)
  {
    CompleteIff(info.chunks, Parts(orig[i], ts));
    PartsEmptyIff(orig[i], ts);
    if |info.chunks| == |Parts(orig[i], ts)| {
      RestoreIsExact(orig[i].id, orig[i].groups, ts, info.chunks);
    }
  }

  ghost predicate AllIn(chunks: map<nat, seq<string>>, n: nat) {
    forall c: nat | c < n :: c in chunks
  }

  /** The tags at one timestamp are those of a backup of orig, none missing, in any order. */
  ghost predicate Faithful(listing: seq<Listed>, orig: seq<Nic>, ts: nat) {
    && (forall j | 0 <= j < |listing| && Matches(listing[j].value, ts) :: IsSomeEntry(orig, ts, listing[j].value.backup))
    && (forall i: nat, c: nat | i < |orig| && c < |Parts(orig[i], ts)| :: Doc(Entry(orig[i], ts, c)) in ValuesOf(listing))
  }

  predicate Matches(v: TagValue, ts: nat) {
    v.Doc? && v.backup.ts == ts
  }

  ghost predicate IsSomeEntry(orig: seq<Nic>, ts: nat, b: Backup) {
    exists i: nat, c: nat :: IsEntry(orig, ts, i, c, b)
  }

  function ValuesOf(listing: seq<Listed>): seq<TagValue> {
    seq(|listing|, j requires 0 <= j < |listing| => listing[j].value)
  }

  /** Every entry met so far has been seen. */
  ghost predicate SeenUpTo(listing: seq<Listed>, j: nat, orig: seq<Nic>, ts: nat, seen: set<(nat, nat)>) {
    forall k, i: nat, c: nat | 0 <= k < j && k < |listing| && listing[k].value.Doc? && IsEntry(orig, ts, i, c, listing[k].value.backup) ::
      (i, c) in seen
  }

  ghost predicate Sound(orig: seq<Nic>, ts: nat, text: string) {
    DistinctIds(orig) && AllRestorable(orig) && ts > 0 && text == Dec(ts)
  }

  /** The loop of restore_security_groups over the tags: the interfaces whose chunks have all
      been found, with their groups.  From any permutation of a backup, mixed with tags of
      other timestamps and other text, the original lists come out exactly and in order. */
  method Reassemble(listing: seq<Listed>, text: string, ghost orig: seq<Nic>, ghost ts: nat)
    returns (matching: map<string, seq<string>>)
    ensures matching != map[] ==> exists j | 0 <= j < |listing| :: Dated(listing[j].value, text)
    ensures Sound(orig, ts, text) && Faithful(listing, orig, ts) ==> (
              && (forall id | id in matching :: exists i | 0 <= i < |orig| ::
                    orig[i].id == id && matching[id] == orig[i].groups && orig[i].groups != [])
              && (forall i | 0 <= i < |orig| :: orig[i].groups != [] ==> orig[i].id in matching))
  {
    var infos: map<string, Info> := map[];
    matching := map[];
    ghost var seen: set<(nat, nat)> := {};
    ghost var good := Sound(orig, ts, text) && Faithful(listing, orig, ts);
    for j := 0 to |listing|
      invariant good ==> Tracks(infos, orig, ts, seen) && Rebuilt(matching, infos, orig, ts)
      invariant good ==> SeenUpTo(listing, j, orig, ts, seen)
      invariant matching != map[] ==> exists k | 0 <= k < j :: Dated(listing[k].value, text)
    {
      var v := listing[j].value;
      if v.Doc? && v.backup.ts != 0 && Dec(v.backup.ts) == text {
        ghost var i: nat, c: nat := 0, 0;
        if good {
          DecInjective(v.backup.ts, ts);
          i, c :| IsEntry(orig, ts, i, c, v.backup);
          OnePlace(orig, ts, v.backup, i, c);
        }
        infos, matching := Absorb(infos, matching, v.backup, orig, ts, seen, i, c);
        seen := seen + {(i, c)};
      }
    }
    if good {
      forall i | 0 <= i < |orig| && orig[i].groups != [] ensures orig[i].id in matching {
        AllSeen(listing, infos, orig, ts, seen, i);
      }
    }
  }

  predicate Dated(v: TagValue, text: string) {
    v.Doc? && Dec(v.backup.ts) == text
  }

  lemma OnePlace(orig: seq<Nic>, ts: nat, b: Backup, i: nat, c: nat)
    requires DistinctIds(orig) && IsEntry(orig, ts, i, c, b)
    ensures forall i': nat, c': nat | IsEntry(orig, ts, i', c', b) :: i' == i && c' == c
  {
  }

  lemma SeenOne(listing: seq<Listed>, infos: map<string, Info>, orig: seq<Nic>, ts: nat, seen: set<(nat, nat)>, i: nat, c: nat)
    requires Faithful(listing, orig, ts) && Tracks(infos, orig, ts, seen)
    requires SeenUpTo(listing, |listing|, orig, ts, seen)
    requires i < |orig| && c < |Parts(orig[i], ts)|
    ensures orig[i].id in infos && c in infos[orig[i].id].chunks
  {
    var k :| 0 <= k < |listing| && ValuesOf(listing)[k] == Doc(Entry(orig[i], ts, c));
    assert IsEntry(orig, ts, i, c, listing[k].value.backup);
    var p := (i, c);
    assert p in seen;
  }

  lemma AllSeen(listing: seq<Listed>, infos: map<string, Info>, orig: seq<Nic>, ts: nat, seen: set<(nat, nat)>, i: nat)
    requires Faithful(listing, orig, ts) && Tracks(infos, orig, ts, seen)
    requires SeenUpTo(listing, |listing|, orig, ts, seen)
    requires i < |orig| && orig[i].groups != []
    ensures orig[i].id in infos && |infos[orig[i].id].chunks| == |Parts(orig[i], ts)|
  {
    var parts := Parts(orig[i], ts);
    PartsEmptyIff(orig[i], ts);
    SeenOne(listing, infos, orig, ts, seen, i, 0);
    forall c: nat | c < |parts| ensures c in infos[orig[i].id].chunks {
      SeenOne(listing, infos, orig, ts, seen, i, c);
    }
    CompleteIff(infos[orig[i].id].chunks, parts);
  }

  class Ec2 {
    const instance: string
    var nics: seq<Nic>
    var tags: Tags

    constructor (instance: string, nics: seq<Nic>, tags: Tags)
      ensures this.instance == instance && this.nics == nics && this.tags == tags
    {
      this.instance, this.nics, this.tags := instance, nics, tags;
    }

    method CreateBackupTag(ts: nat)
      modifies `tags
      ensures Backed(old(tags), tags, instance, nics, ts, |nics|, 0)
    {
      for n := 0 to |nics|
        invariant Backed(old(tags), tags, instance, nics, ts, n, 0)
      {
        var nic := nics[n];
        var chunks := MakeChunks(nic.id, nic.groups, ts);
        for m := 0 to |chunks|
          invariant Backed(old(tags), tags, instance, nics, ts, n, m)
        {
          WriteNext(old(tags), tags, instance, nics, ts, n, m);
          tags := tags[Key(instance, ts, n, m) := Doc(Backup(nic.id, chunks[m], m, |chunks|, ts))];
        }
        NextNic(old(tags), tags, instance, nics, ts, n);
      }
    }

    ghost predicate SameIds(others: seq<Nic>)
      reads this
    {
      |others| == |nics| && forall i | 0 <= i < |nics| :: nics[i].id == others[i].id
    }

    /** modify_security_groups.  It fails when nothing was changed although something should
        have been. */
    method ModifySecurityGroups(sgList: seq<string>, ts: nat, keepOnly: bool) returns (r: Outcome)
      modifies this
      ensures SameIds(old(nics))
      ensures forall i | 0 <= i < |nics| :: nics[i].groups == NewGroups(old(nics)[i].groups, sgList, keepOnly)
      ensures Backed(old(tags)[LASTFENCE := Text(Dec(ts))], tags, instance, old(nics), ts, |nics|, 0)
      ensures forall i | 0 <= i < |nics| :: IsFenced(old(nics)[i].groups, nics[i].groups, sgList, keepOnly)
      ensures r == Failed <==> nics == old(nics) && exists i | 0 <= i < |nics| :: Affected(nics[i].groups, sgList, keepOnly)
    {
      ghost var before := nics;
      CreateBackupTag(ts);
      LastfenceApart(old(tags), tags, instance, nics, ts);
      tags := tags[LASTFENCE := Text(Dec(ts))];
      var changedAny := ChangeGroups(sgList, keepOnly);
      forall i | 0 <= i < |nics| ensures IsFenced(before[i].groups, nics[i].groups, sgList, keepOnly) {
        NewGroupsFence(before[i].groups, sgList, keepOnly);
      }
      if !changedAny {
        var sgFound := AnyAffected(nics, sgList, keepOnly);
        if sgFound { return Failed; }
      }
      return Completed;
    }

    /** The loop that changes the interfaces. */
    method ChangeGroups(sgList: seq<string>, keepOnly: bool) returns (changedAny: bool)
      modifies `nics
      ensures SameIds(old(nics)) && (!changedAny <==> nics == old(nics))
      ensures forall i | 0 <= i < |nics| :: nics[i].groups == NewGroups(old(nics)[i].groups, sgList, keepOnly)
    {
      var interfaces := nics;
      changedAny := false;
      for i := 0 to |interfaces|
        invariant SameIds(interfaces)
        invariant forall j | 0 <= j < i :: nics[j].groups == NewGroups(interfaces[j].groups, sgList, keepOnly)
        invariant forall j | i <= j < |nics| :: nics[j] == interfaces[j]
        invariant !changedAny <==> nics == interfaces
      {
        var original := interfaces[i].groups;
        var updated := if keepOnly then sgList else Removing(original, sgList);
        if !keepOnly && updated == [] { continue; }
        if updated == original { continue; }
        nics := nics[i := Nic(interfaces[i].id, updated)];
        assert nics[i] != interfaces[i];
        changedAny := true;
      }
    }

    /** The loop that looks for interfaces that should have been changed. */
    method AnyAffected(interfaces: seq<Nic>, sgList: seq<string>, keepOnly: bool) returns (sgFound: bool)
      ensures sgFound <==> exists i | 0 <= i < |interfaces| :: Affected(interfaces[i].groups, sgList, keepOnly)
    {
      for i := 0 to |interfaces|
        invariant forall j | 0 <= j < i :: !Affected(interfaces[j].groups, sgList, keepOnly)
      {
        if Affected(interfaces[i].groups, sgList, keepOnly) { return true; }
      }
      return false;
    }

    lemma LastfenceApart(before: Tags, tags: Tags, instance: string, nics: seq<Nic>, ts: nat)
      requires Backed(before, tags, instance, nics, ts, |nics|, 0)
      ensures Backed(before[LASTFENCE := Text(Dec(ts))], tags[LASTFENCE := Text(Dec(ts))], instance, nics, ts, |nics|, 0)
    {
      forall i: nat, c: nat | Due(nics, ts, i, c, |nics|, 0) ensures Key(instance, ts, i, c) != LASTFENCE {
        KeyHasPrefix(instance, ts, i, c);
      }
    }

    /** restore_security_groups.  When it fails, nothing has been changed; when it succeeds,
        lastfence and the backup tags of its timestamp are deleted, and no others. */
    method RestoreSecurityGroups(ghost orig: seq<Nic>, ghost ts: nat) returns (r: Outcome)
      modifies this
      ensures SameIds(old(nics))
      ensures r == Failed ==> nics == old(nics) && tags == old(tags)
      ensures r == Completed ==> (
                && LASTFENCE in old(tags) && old(tags)[LASTFENCE].Text?
                && tags == WithoutBackups(old(tags), instance, old(tags)[LASTFENCE].text))
      ensures IsReady(old(tags), instance, orig, ts) && SameIds(orig) ==> (
                && (forall i | 0 <= i < |nics| :: nics[i].groups == Original(orig[i], old(nics)[i]))
                && (r == Completed <==> exists i | 0 <= i < |nics| :: Original(orig[i], old(nics)[i]) != old(nics)[i].groups))
    {
      var found, text, listing, matching := FindBackup(orig, ts);
      if !found { return Failed; }
      var changedAny := Apply(matching);
      if !changedAny { return Failed; }
      CleanUp(listing, text);
      return Completed;
    }

    method FindBackup(ghost orig: seq<Nic>, ghost ts: nat)
      returns (found: bool, text: string, listing: seq<Listed>, matching: map<string, seq<string>>)
      ensures found ==> (
                && LASTFENCE in tags && tags[LASTFENCE] == Text(text)
                && Lists(listing, tags, BackupPrefix(instance)))
      ensures IsReady(tags, instance, orig, ts) && SameIds(orig) ==>
                if found then forall i | 0 <= i < |nics| :: Original(orig[i], nics[i]) == Found(matching, nics[i])
                else forall i | 0 <= i < |orig| :: orig[i].groups == []
    {
      found, text, listing, matching := false, "", [], map[];
      if LASTFENCE !in tags || !tags[LASTFENCE].Text? { return; }
      text := tags[LASTFENCE].text;
      listing := DescribeBackups();
      ghost var ready := IsReady(tags, instance, orig, ts) && SameIds(orig);
      if ready { ReadyIsFaithful(listing, orig, ts); }
      if listing == [] {
        if ready { NothingListed(listing, orig, ts); }
        return;
      }
      matching := Reassemble(listing, text, orig, ts);
      found := matching != map[];
      if ready { MatchingIsOriginal(matching, nics, orig); }
    }

    /** Gives every interface the list found for it. */
    method Apply(matching: map<string, seq<string>>) returns (changedAny: bool)
      modifies `nics
      ensures SameIds(old(nics))
      ensures forall i | 0 <= i < |nics| :: nics[i].groups == Found(matching, old(nics)[i])
      ensures !changedAny <==> nics == old(nics)
    {
      var current := nics;
      changedAny := false;
      for i := 0 to |current|
        invariant SameIds(current)
        invariant forall j | i <= j < |nics| :: nics[j] == current[j]
        invariant forall j | 0 <= j < i :: nics[j].groups == Found(matching, current[j])
        invariant !changedAny <==> nics == current
      {
        var nic := current[i];
        if nic.id !in matching { continue; }
        if matching[nic.id] == nic.groups { continue; }
        nics := nics[i := Nic(nic.id, matching[nic.id])];
        assert nics[i] != current[i];
        changedAny := true;
      }
    }

    function Found(matching: map<string, seq<string>>, nic: Nic): seq<string> {
      if nic.id in matching then matching[nic.id] else nic.groups
    }

    method CleanUp(listing: seq<Listed>, text: string)
      requires Lists(listing, tags, BackupPrefix(instance))
      modifies `tags
      ensures tags == WithoutBackups(old(tags), instance, text)
    {
      var doomed := {LASTFENCE} + set l | l in listing && Dated(l.value, text) :: l.key;
      forall k | k in tags ensures k in doomed <==> k == LASTFENCE || (BackupPrefix(instance) <= k && Dated(tags[k], text)) {
        if BackupPrefix(instance) <= k && Dated(tags[k], text) {
          var l := Listed(k, tags[k]);
          assert l in listing && l.key in doomed;
        }
      }
      tags := tags - doomed;
    }

    /** An interface that had no groups has no backup, and keeps what it has. */
    function Original(orig: Nic, now: Nic): seq<string> {
      if orig.groups == [] then now.groups else orig.groups
    }

    lemma NothingListed(listing: seq<Listed>, orig: seq<Nic>, ts: nat)
      requires IsReady(tags, instance, orig, ts) && listing == [] && Lists(listing, tags, BackupPrefix(instance))
      ensures forall i | 0 <= i < |orig| :: orig[i].groups == []
    {
      forall i | 0 <= i < |orig| ensures orig[i].groups == [] {
        PartsEmptyIff(orig[i], ts);
        KeyHasPrefix(instance, ts, i, 0);
      }
    }

    lemma ReadyIsFaithful(listing: seq<Listed>, orig: seq<Nic>, ts: nat)
      requires IsReady(tags, instance, orig, ts) && Lists(listing, tags, BackupPrefix(instance))
      ensures Faithful(listing, orig, ts)
    {
      forall i: nat, c: nat | i < |orig| && c < |Parts(orig[i], ts)|
        ensures Doc(Entry(orig[i], ts, c)) in ValuesOf(listing)
      {
        var k := Key(instance, ts, i, c);
        KeyHasPrefix(instance, ts, i, c);
        var j :| 0 <= j < |listing| && listing[j] == Listed(k, tags[k]);
        assert ValuesOf(listing)[j] == tags[k];
      }
    }

    lemma MatchingIsOriginal(matching: map<string, seq<string>>, current: seq<Nic>, orig: seq<Nic>)
      requires |current| == |orig| && DistinctIds(orig) && forall i | 0 <= i < |orig| :: current[i].id == orig[i].id
      requires forall id | id in matching :: exists i | 0 <= i < |orig| ::
                 orig[i].id == id && matching[id] == orig[i].groups && orig[i].groups != []
      requires forall i | 0 <= i < |orig| :: orig[i].groups != [] ==> orig[i].id in matching
      ensures forall i | 0 <= i < |orig| ::
                Original(orig[i], current[i]) == Found(matching, current[i])
    {
    }

    /** is_instance_fenced: the groups are as fencing leaves them, or a backup of the last
        fencing exists. */
    method IsInstanceFenced(sgList: seq<string>, keepOnly: bool) returns (fenced: bool)
      ensures fenced <==> (sgList != [] && NoneAffected(nics, sgList, keepOnly)) || HasLastBackup(tags, instance)
    {
      if sgList != [] {
        var unmodified := AnyAffected(nics, sgList, keepOnly);
        if !unmodified { return true; }
      }
      if LASTFENCE !in tags || !tags[LASTFENCE].Text? { return false; }
      var text := tags[LASTFENCE].text;
      var listing := DescribeBackups();
      for i := 0 to |listing|
        invariant forall j | 0 <= j < i :: !Dated(listing[j].value, text) || listing[j].value.backup.ts == 0
      {
        if Dated(listing[i].value, text) && listing[i].value.backup.ts != 0 { return true; }
      }
      return false;
    }

    /** A fencing that is undone at once, asking each time whether the instance counts as
        fenced.  With a timestamp no tag has used yet:
        - fencing fails exactly when groups would be removed, but each interface that has one
          of them has no other, and nothing is changed then;
        - whether it failed or not, the instance counts as fenced exactly when a group is
          listed or some interface had a group;
        - every interface that had a group has its original list again;
        - restoring succeeds if and only if fencing had changed one of these;
        - then only lastfence and the tags of this backup are gone, older backups stay. */
    method FenceThenRestore(sgList: seq<string>, ts: nat, keepOnly: bool)
      returns (fenced: Outcome, off: bool, restored: Outcome, stillOff: bool)
      requires DistinctIds(nics) && AllRestorable(nics) && ts > 0 && Unused(tags, instance, ts)
      modifies this
      ensures SameIds(old(nics))
      ensures off <==> sgList != [] || exists i | 0 <= i < |nics| :: old(nics)[i].groups != []
      ensures fenced == Failed <==> !keepOnly && WouldEmpty(old(nics), sgList)
      ensures fenced == Failed ==> off && nics == old(nics)
      ensures fenced == Completed ==> forall i | 0 <= i < |nics| :: old(nics)[i].groups != [] ==> nics[i].groups == old(nics)[i].groups
      ensures fenced == Completed ==>
                (restored == Completed <==> exists i | 0 <= i < |nics| :: old(nics)[i].groups != [] && old(nics)[i].groups != NewGroups(old(nics)[i].groups, sgList, keepOnly))
      ensures fenced == Completed && restored == Completed ==> tags == old(tags) - {LASTFENCE}
      ensures fenced == Completed && restored == Completed ==> (stillOff <==> sgList != [] && NoneAffected(nics, sgList, keepOnly))
    {
      ghost var orig, before := nics, tags;
      off, restored, stillOff := false, Failed, false;
      fenced := ModifySecurityGroups(sgList, ts, keepOnly);
      FailsIffWouldEmpty(orig, nics, sgList, keepOnly);
      BackedIsReady(before, tags, instance, orig, ts);
      BackedIsDated(tags, instance, orig, ts);
      if !HasLastBackup(tags, instance) { assert NoneAffected(nics, sgList, keepOnly); }
      off := IsInstanceFenced(sgList, keepOnly);
      if fenced == Failed { return; }
      CleanedUp(before, tags, instance, orig, ts);
      restored := RestoreSecurityGroups(orig, ts);
      stillOff := IsInstanceFenced(sgList, keepOnly);
    }

    /** describe_tags for the backup tags of the instance, in whatever order. */
    method DescribeBackups() returns (listing: seq<Listed>)
      ensures Lists(listing, tags, BackupPrefix(instance))
    {
      var todo := set k | k in tags && BackupPrefix(instance) <= k;
      listing := [];
      ghost var all := todo;
      while todo != {}
        invariant todo <= all
        invariant forall j | 0 <= j < |listing| ::
                    listing[j].key in all - todo && listing[j].value == tags[listing[j].key]
        invariant forall k | k in all - todo :: Listed(k, tags[k]) in listing
        decreases todo
      {
        var k :| k in todo;
        listing := listing + [Listed(k, tags[k])];
        todo := todo - {k};
      }
    }
  }

  /** The tags that are left once those of a backup have been deleted. */
  ghost function WithoutBackups(tags: Tags, instance: string, text: string): Tags {
    map k | k in tags && k != LASTFENCE && !(BackupPrefix(instance) <= k && Dated(tags[k], text)) :: tags[k]
  }

  ghost predicate Lists(listing: seq<Listed>, tags: Tags, prefix: string) {
    && (forall j | 0 <= j < |listing| :: listing[j].key in tags && prefix <= listing[j].key && listing[j].value == tags[listing[j].key])
    && (forall k | k in tags && prefix <= k :: Listed(k, tags[k]) in listing)
  }

  /** The tags of a backup of orig at ts are there, and no others of that time. */
  ghost predicate IsReady(t: Tags, instance: string, orig: seq<Nic>, ts: nat) {
    && Sound(orig, ts, Dec(ts))
    && LASTFENCE in t && t[LASTFENCE] == Text(Dec(ts))
    && (forall k | k in t && BackupPrefix(instance) <= k && Matches(t[k], ts) :: IsSomeEntry(orig, ts, t[k].backup))
    && (forall i: nat, c: nat {:trigger Key(instance, ts, i, c)} | i < |orig| && c < |Parts(orig[i], ts)| ::
          var k := Key(instance, ts, i, c); k in t && t[k] == Doc(Entry(orig[i], ts, c)))
  }

  ghost predicate NoneAffected(nics: seq<Nic>, sgList: seq<string>, keepOnly: bool) {
    forall i | 0 <= i < |nics| :: !Affected(nics[i].groups, sgList, keepOnly)
  }

  ghost predicate HasLastBackup(tags: Tags, instance: string) {
    LASTFENCE in tags && tags[LASTFENCE].Text? &&
    exists k | k in tags && BackupPrefix(instance) <= k :: Dated(tags[k], tags[LASTFENCE].text) && tags[k].backup.ts != 0
  }

  /** No backup of this time exists, nor a tag under one of the keys it would use. */
  ghost predicate Unused(tags: Tags, instance: string, ts: nat) {
    && (forall k | k in tags && BackupPrefix(instance) <= k :: !Matches(tags[k], ts))
    && (forall i: nat, c: nat :: Key(instance, ts, i, c) !in tags)
  }

  lemma BackedIsReady(before: Tags, tags: Tags, instance: string, nics: seq<Nic>, ts: nat)
    requires Backed(before[LASTFENCE := Text(Dec(ts))], tags, instance, nics, ts, |nics|, 0)
    requires DistinctIds(nics) && AllRestorable(nics) && ts > 0 && Unused(before, instance, ts)
    ensures IsReady(tags, instance, nics, ts)
  {
    var first := before[LASTFENCE := Text(Dec(ts))];
    forall i: nat, c: nat | i < |nics| && c < |Parts(nics[i], ts)|
      ensures var k := Key(instance, ts, i, c); k in tags && tags[k] == Doc(Entry(nics[i], ts, c))
    {
      assert Due(nics, ts, i, c, |nics|, 0);
    }
    forall k | k in tags && BackupPrefix(instance) <= k && Matches(tags[k], ts)
      ensures IsSomeEntry(nics, ts, tags[k].backup)
    {
      if IsDue(k, instance, nics, ts, |nics|, 0) {
        var i: nat, c: nat :| Due(nics, ts, i, c, |nics|, 0) && k == Key(instance, ts, i, c);
        assert IsEntry(nics, ts, i, c, tags[k].backup);
      }
    }
    LastfenceIsNotDue(instance, nics, ts);
  }

  lemma LastfenceIsNotDue(instance: string, nics: seq<Nic>, ts: nat)
    ensures !IsDue(LASTFENCE, instance, nics, ts, |nics|, 0)
  {
    forall i: nat, c: nat | Due(nics, ts, i, c, |nics|, 0) ensures Key(instance, ts, i, c) != LASTFENCE {
      KeyHasPrefix(instance, ts, i, c);
    }
  }

  lemma BackedIsDated(tags: Tags, instance: string, nics: seq<Nic>, ts: nat)
    requires IsReady(tags, instance, nics, ts) && ts > 0
    ensures HasLastBackup(tags, instance) <==> exists i | 0 <= i < |nics| :: nics[i].groups != []
  {
    if HasLastBackup(tags, instance) {
      var k :| k in tags && BackupPrefix(instance) <= k && Dated(tags[k], Dec(ts));
      DecInjective(tags[k].backup.ts, ts);
      var i: nat, c: nat :| IsEntry(nics, ts, i, c, tags[k].backup);
      PartsEmptyIff(nics[i], ts);
    }
    if i :| 0 <= i < |nics| && nics[i].groups != [] {
      PartsEmptyIff(nics[i], ts);
      KeyHasPrefix(instance, ts, i, 0);
      var k := Key(instance, ts, i, 0);
      assert k in tags && Dated(tags[k], Dec(ts));
    }
  }

  /** Deleting the backup leaves the tags there were before, lastfence excepted. */
  lemma CleanedUp(before: Tags, tags: Tags, instance: string, nics: seq<Nic>, ts: nat)
    requires Backed(before[LASTFENCE := Text(Dec(ts))], tags, instance, nics, ts, |nics|, 0)
    requires Unused(before, instance, ts)
    ensures WithoutBackups(tags, instance, Dec(ts)) == before - {LASTFENCE}
    ensures !HasLastBackup(before - {LASTFENCE}, instance)
  {
    var left := WithoutBackups(tags, instance, Dec(ts));
    forall k ensures k in left <==> k in before && k != LASTFENCE {
      if IsDue(k, instance, nics, ts, |nics|, 0) {
        var i: nat, c: nat :| Due(nics, ts, i, c, |nics|, 0) && k == Key(instance, ts, i, c);
        KeyHasPrefix(instance, ts, i, c);
        assert Dated(tags[k], Dec(ts));
      }
      if k in before && BackupPrefix(instance) <= k && before[k].Doc? {
        assert !Matches(before[k], ts);
        DecDiffers(before[k].backup.ts, ts);
      }
    }
  }
}
