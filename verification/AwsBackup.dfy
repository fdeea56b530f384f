/** Backup tags of fence_aws_vpc_net: how the security groups of an interface are cut into
    chunks that fit a tag, and put together again. */
module AwsBackup {
  import opened Decimal

  /** The value of a backup tag: chunk number index of total. */
  datatype Backup = Backup(nid: string, sgs: seq<string>, index: nat, total: nat, ts: nat)

  function Items(sgs: seq<string>): string {
    if sgs == [] then ""
    else if |sgs| == 1 then "\"" + sgs[0] + "\""
    else "\"" + sgs[0] + "\", " + Items(sgs[1..])
  }

  /** The JSON text of a backup, ids being plain text that needs no escapes. */
  function Json(b: Backup): string {
    "{\"n\": {\"i\": \"" + b.nid + "\", \"s\": [" + Items(b.sgs) + "], \"c\": {\"i\": " + Dec(b.index)
    + ", \"t\": " + Dec(b.total) + "}}, \"t\": " + Dec(b.ts) + "}"
  }

  function ItemsSize(sgs: seq<string>): nat {
    if sgs == [] then 0
    else if |sgs| == 1 then |sgs[0]| + 2
    else |sgs[0]| + 4 + ItemsSize(sgs[1..])
  }

  const FRAME := 53

  /** The length of that text, part by part. */
  function JsonSize(b: Backup): nat {
    FRAME + |b.nid| + ItemsSize(b.sgs) + |Dec(b.index)| + |Dec(b.total)| + |Dec(b.ts)|
  }

  lemma {:induction false} ItemsSizeIs(sgs: seq<string>)
    ensures |Items(sgs)| == ItemsSize(sgs)
  {
    if |sgs| > 1 {
      ItemsSizeIs(sgs[1..]);
    }
  }

  lemma JsonSizeIs(b: Backup)
    ensures |Json(b)| == JsonSize(b)
  {
    ItemsSizeIs(b.sgs);
  }

  const LIMIT := 254

  /** The test of create_backup_tag, made with a total of 1. */
  predicate Fits(nid: string, chunk: seq<string>, index: nat, ts: nat) {
    JsonSize(Backup(nid, chunk, index, 1, ts)) <= LIMIT
  }

  lemma {:induction false} ItemsGrow(a: seq<string>, b: seq<string>)
    ensures ItemsSize(a) <= ItemsSize(a + b)
  {
    if a == [] {
    } else if b == [] {
      assert a + b == a;
    } else {
      assert (a + b)[1..] == a[1..] + b;
      ItemsGrow(a[1..], b);
    }
  }

  lemma FitsPrefix(nid: string, a: seq<string>, b: seq<string>, index: nat, ts: nat)
    requires a <= b && Fits(nid, b, index, ts)
    ensures Fits(nid, a, index, ts)
  {
    ItemsGrow(a, b[|a|..]);
    assert a + b[|a|..] == b;
  }

  // ------------------------------------------------------------- a reference definition

  function Flatten(chunks: seq<seq<string>>): seq<string> {
    if chunks == [] then [] else chunks[0] + Flatten(chunks[1..])
  }

  /** The length of the longest prefix of s that fits, at least n. */
  function Longest(nid: string, s: seq<string>, n: nat, index: nat, ts: nat): (r: nat)
    requires n <= |s|
    ensures n <= r <= |s|
    decreases |s| - n
  {
    if n < |s| && Fits(nid, s[..n+1], index, ts) then Longest(nid, s, n + 1, index, ts) else n
  }

  /** Each chunk is the longest that fits, or a single group that does not. */
  function Chunks(nid: string, s: seq<string>, index: nat, ts: nat): (r: seq<seq<string>>)
    decreases |s|
  {
    if s == [] then []
    else
      var n := Longest(nid, s, 1, index, ts);
      [s[..n]] + Chunks(nid, s[n..], index + 1, ts)
  }

  /** No chunk is empty; each fits or is a single group; the first group of the next chunk
      would not have fitted as well. */
  ghost predicate Greedy(nid: string, chunks: seq<seq<string>>, index: nat, ts: nat) {
    && (forall i | 0 <= i < |chunks| ::
          chunks[i] != [] && (|chunks[i]| == 1 || Fits(nid, chunks[i], index + i, ts)))
    && (forall i | 0 <= i < |chunks| - 1 && chunks[i+1] != [] ::
          !Fits(nid, chunks[i] + [chunks[i+1][0]], index + i, ts))
  }

  lemma {:induction false} LongestMeans(nid: string, s: seq<string>, n: nat, index: nat, ts: nat)
    requires 0 < n <= |s| && (n == 1 || Fits(nid, s[..n], index, ts))
    ensures var r := Longest(nid, s, n, index, ts);
            && (r == 1 || Fits(nid, s[..r], index, ts))
            && (r < |s| ==> !Fits(nid, s[..r+1], index, ts))
    decreases |s| - n
  {
    if n < |s| && Fits(nid, s[..n+1], index, ts) {
      LongestMeans(nid, s, n + 1, index, ts);
    }
  }

  lemma {:induction false} ChunksAreGreedy(nid: string, s: seq<string>, index: nat, ts: nat)
    ensures Greedy(nid, Chunks(nid, s, index, ts), index, ts)
    ensures Flatten(Chunks(nid, s, index, ts)) == s
    decreases |s|
  {
    if s != [] {
      var n := Longest(nid, s, 1, index, ts);
      LongestMeans(nid, s, 1, index, ts);
      var rest := Chunks(nid, s[n..], index + 1, ts);
      ChunksAreGreedy(nid, s[n..], index + 1, ts);
      var all := [s[..n]] + rest;
      assert s[..n] + s[n..] == s && all[1..] == rest;
      if rest != [] {
        FlattenFirst(rest);
        assert s[..n] + [s[n]] == s[..n+1];
      }
      GreedyCons(nid, s[..n], rest, index, ts);
    }
  }

  lemma FlattenFirst(chunks: seq<seq<string>>)
    requires chunks != [] && chunks[0] != []
    ensures Flatten(chunks) != [] && Flatten(chunks)[0] == chunks[0][0]
  {
  }

  lemma GreedyCons(nid: string, c: seq<string>, rest: seq<seq<string>>, index: nat, ts: nat)
    requires c != [] && (|c| == 1 || Fits(nid, c, index, ts)) && Greedy(nid, rest, index + 1, ts)
    requires rest != [] ==> !Fits(nid, c + [rest[0][0]], index, ts)
    ensures Greedy(nid, [c] + rest, index, ts)
  {
    var all := [c] + rest;
    forall i | 0 <= i < |all|
      ensures all[i] != [] && (|all[i]| == 1 || Fits(nid, all[i], index + i, ts))
    {
      if i > 0 { assert all[i] == rest[i-1] && Fits(nid, rest[i-1], index + 1 + (i - 1), ts) == Fits(nid, all[i], index + i, ts); }
    }
    forall i | 0 <= i < |all| - 1 && all[i+1] != []
      ensures !Fits(nid, all[i] + [all[i+1][0]], index + i, ts)
    {
      if i > 0 { assert all[i] == rest[i-1] && all[i+1] == rest[i] && index + i == index + 1 + (i - 1); }
    }
  }

  lemma GreedyTail(nid: string, a: seq<seq<string>>, index: nat, ts: nat)
    requires Greedy(nid, a, index, ts) && a != []
    ensures Greedy(nid, a[1..], index + 1, ts)
  {
    var t := a[1..];
    forall i | 0 <= i < |t| ensures t[i] != [] && (|t[i]| == 1 || Fits(nid, t[i], index + 1 + i, ts)) {
      assert t[i] == a[i+1] && index + (i + 1) == index + 1 + i;
    }
    forall i | 0 <= i < |t| - 1 && t[i+1] != [] ensures !Fits(nid, t[i] + [t[i+1][0]], index + 1 + i, ts) {
      assert t[i] == a[i+1] && t[i+1] == a[i+2] && index + (i + 1) == index + 1 + i;
    }
  }

  /** There is only one such division. */
  lemma {:induction false} GreedyIsUnique(nid: string, a: seq<seq<string>>, b: seq<seq<string>>, index: nat, ts: nat)
    requires Greedy(nid, a, index, ts) && Greedy(nid, b, index, ts) && Flatten(a) == Flatten(b)
    ensures a == b
  {
    if a == [] || b == [] {
    } else {
      FirstNotShorter(nid, a, b, index, ts);
      FirstNotShorter(nid, b, a, index, ts);
      var s := Flatten(a);
      assert s[..|a[0]|] == a[0] && s[..|b[0]|] == b[0];
      assert s[|a[0]|..] == Flatten(a[1..]) && s[|b[0]|..] == Flatten(b[1..]);
      GreedyTail(nid, a, index, ts);
      GreedyTail(nid, b, index, ts);
      GreedyIsUnique(nid, a[1..], b[1..], index + 1, ts);
      assert a == [a[0]] + a[1..] && b == [b[0]] + b[1..];
    }
  }

  lemma FirstNotShorter(nid: string, a: seq<seq<string>>, b: seq<seq<string>>, index: nat, ts: nat)
    requires Greedy(nid, a, index, ts) && Greedy(nid, b, index, ts) && Flatten(a) == Flatten(b)
    requires a != [] && b != []
    ensures |b[0]| <= |a[0]|
  {
    var s := Flatten(a);
    var n := |a[0]|;
    assert s[..n] == a[0] && s[..|b[0]|] == b[0];
    if n < |b[0]| {
      FlattenFirst(a[1..]);
      assert a[1] == a[1..][0] && s[n] == a[1][0];
      assert a[0] + [a[1][0]] == s[..n+1];
      FitsPrefix(nid, s[..n+1], b[0], index, ts);
    }
  }

  // ----------------------------------------------------------------------- the chunker

  predicate StartsWithSg(g: string) {
    "sg-" <= g
  }

  function Strip(g: string): string {
    if StartsWithSg(g) then g[3..] else g
  }

  function Unstrip(g: string): string {
    if StartsWithSg(g) then g else "sg-" + g
  }

  /** Exactly which group ids survive: "sg-" and something that does not start with it. */
  lemma StripRoundTrip(g: string)
    ensures Unstrip(Strip(g)) == g <==> StartsWithSg(g) && !StartsWithSg(g[3..])
  {
    if StartsWithSg(g) {
      assert g == "sg-" + g[3..];
    }
  }

  function StripAll(gs: seq<string>): (r: seq<string>)
    ensures |r| == |gs| && forall i | 0 <= i < |gs| :: r[i] == Strip(gs[i])
  {
    if gs == [] then [] else [Strip(gs[0])] + StripAll(gs[1..])
  }

  function UnstripAll(gs: seq<string>): (r: seq<string>)
    ensures |r| == |gs| && forall i | 0 <= i < |gs| :: r[i] == Unstrip(gs[i])
  {
    if gs == [] then [] else [Unstrip(gs[0])] + UnstripAll(gs[1..])
  }

  lemma {:induction false} FlattenAppend(a: seq<seq<string>>, c: seq<string>)
    ensures Flatten(a + [c]) == Flatten(a) + c
  {
    if a == [] {
      assert a + [c] == [c];
    } else {
      assert (a + [c])[1..] == a[1..] + [c];
      FlattenAppend(a[1..], c);
    }
  }

  /** What has been built so far: finished chunks and the current one. */
  ghost predicate Building(nid: string, chunks: seq<seq<string>>, current: seq<string>, ts: nat) {
    if current == [] then
      && Greedy(nid, chunks, 0, ts)
      && (chunks != [] ==> !Fits(nid, chunks[|chunks|-1], |chunks| - 1, ts))
    else Greedy(nid, chunks + [current], 0, ts)
  }

  /** The loop of create_backup_tag over the groups of one interface. */
  method MakeChunks(nid: string, groups: seq<string>, ts: nat) returns (chunks: seq<seq<string>>)
    ensures chunks == Chunks(nid, StripAll(groups), 0, ts)
  {
    var stripped := StripAll(groups);
    chunks := [];
    var current: seq<string> := [];
    for j := 0 to |stripped|
      invariant Flatten(chunks + [current]) == stripped[..j]
      invariant Building(nid, chunks, current, ts)
    {
      var sg := stripped[j];
      var test := current + [sg];
      JsonSizeIs(Backup(nid, test, |chunks|, 1, ts));
      Appended(chunks, current, sg);
      assert stripped[..j+1] == stripped[..j] + [sg];
      if |Json(Backup(nid, test, |chunks|, 1, ts))| > 254 {
        Overflow(nid, chunks, current, sg, ts);
        if current != [] {
          chunks := chunks + [current];
          current := [sg];
        } else {
          chunks := chunks + [[sg]];
        }
      } else {
        Extend(nid, chunks, current, sg, ts);
        current := test;
      }
    }
    assert stripped[..|stripped|] == stripped;
    FlattenAppend(chunks, current);
    if current != [] {
      chunks := chunks + [current];
    }
    ChunksAreGreedy(nid, stripped, 0, ts);
    GreedyIsUnique(nid, chunks, Chunks(nid, stripped, 0, ts), 0, ts);
  }

  /** The three ways of adding a group. */
  lemma Appended(chunks: seq<seq<string>>, current: seq<string>, sg: string)
    ensures var all := Flatten(chunks + [current]) + [sg];
            && Flatten(chunks + [current + [sg]]) == all
            && Flatten((chunks + [current]) + [[sg]]) == all
            && (current == [] ==> Flatten((chunks + [[sg]]) + [[]]) == all)
  {
    FlattenAppend(chunks, current);
    FlattenAppend(chunks, current + [sg]);
    FlattenAppend(chunks + [current], [sg]);
    FlattenAppend(chunks, [sg]);
    FlattenAppend(chunks + [[sg]], []);
  }

  lemma Overflow(nid: string, chunks: seq<seq<string>>, current: seq<string>, sg: string, ts: nat)
    requires Building(nid, chunks, current, ts) && !Fits(nid, current + [sg], |chunks|, ts)
    ensures current != [] ==> Building(nid, chunks + [current], [sg], ts)
    ensures current == [] ==> Building(nid, chunks + [[sg]], [], ts)
  {
    if current == [] {
      assert current + [sg] == [sg];
      GreedySnoc(nid, chunks, [sg], ts);
    } else {
      assert (chunks + [current])[|chunks|] == current;
      GreedySnoc(nid, chunks + [current], [sg], ts);
    }
  }

  lemma Extend(nid: string, chunks: seq<seq<string>>, current: seq<string>, sg: string, ts: nat)
    requires Building(nid, chunks, current, ts) && Fits(nid, current + [sg], |chunks|, ts)
    ensures Building(nid, chunks, current + [sg], ts)
  {
    if current == [] {
      assert current + [sg] == [sg];
      GreedySnoc(nid, chunks, [sg], ts);
    } else {
      var a, b := chunks + [current], chunks + [current + [sg]];
      forall i | 0 <= i < |b| ensures b[i] != [] && (|b[i]| == 1 || Fits(nid, b[i], i, ts)) {
        if i < |chunks| { assert b[i] == a[i] && Fits(nid, a[i], 0 + i, ts) == Fits(nid, b[i], i, ts); }
      }
      forall i | 0 <= i < |b| - 1 ensures !Fits(nid, b[i] + [b[i+1][0]], i, ts) {
        assert b[i] == a[i] && b[i+1][0] == a[i+1][0];
        assert !Fits(nid, a[i] + [a[i+1][0]], 0 + i, ts);
      }
    }
  }

  /** A further chunk, when its first group does not fit the last one. */
  lemma GreedySnoc(nid: string, a: seq<seq<string>>, c: seq<string>, ts: nat)
    requires Greedy(nid, a, 0, ts) && |c| == 1
    requires a != [] ==> !Fits(nid, a[|a|-1] + c, |a| - 1, ts) || !Fits(nid, a[|a|-1], |a| - 1, ts)
    ensures Greedy(nid, a + [c], 0, ts)
  {
    var b := a + [c];
    if a != [] && Fits(nid, a[|a|-1] + c, |a| - 1, ts) {
      FitsPrefix(nid, a[|a|-1], a[|a|-1] + c, |a| - 1, ts);
    }
    forall i | 0 <= i < |b| ensures b[i] != [] && (|b[i]| == 1 || Fits(nid, b[i], 0 + i, ts)) {
      if i < |a| { assert b[i] == a[i]; }
    }
    forall i | 0 <= i < |b| - 1 && b[i+1] != [] ensures !Fits(nid, b[i] + [b[i+1][0]], 0 + i, ts) {
      if i < |a| - 1 {
        assert b[i] == a[i] && b[i+1] == a[i+1];
      } else {
        assert [c[0]] == c;
      }
    }
  }

  lemma {:induction false} InFlatten(chunks: seq<seq<string>>, i: nat, g: string)
    requires i < |chunks| && g in chunks[i]
    ensures g in Flatten(chunks)
  {
    if i > 0 {
      InFlatten(chunks[1..], i - 1, g);
    }
  }

  /** If every single group fits, tested with a total of 1, then no tag written is longer
      than the limit by more than the further digits of the real total: with up to 999 chunks
      it keeps to the 256 characters of a tag value. */
  lemma TagLength(nid: string, s: seq<string>, ts: nat, i: nat)
    requires var cs := Chunks(nid, s, 0, ts);
             i < |cs| && forall g, k: nat | g in s && k < |cs| :: Fits(nid, [g], k, ts)
    ensures var cs := Chunks(nid, s, 0, ts);
            && cs[i] != []
            && |Json(Backup(nid, cs[i], i, |cs|, ts))| <= 254 + |Dec(|cs|)| - 1
            && (|cs| <= 999 ==> |Json(Backup(nid, cs[i], i, |cs|, ts))| <= 256)
  {
    var cs := Chunks(nid, s, 0, ts);
    ChunksAreGreedy(nid, s, 0, ts);
    if |cs[i]| == 1 {
      InFlatten(cs, i, cs[i][0]);
      assert cs[i] == [cs[i][0]];
    }
    assert Fits(nid, cs[i], 0 + i, ts);
    JsonSizeIs(Backup(nid, cs[i], i, |cs|, ts));
    assert |Dec(1)| == 1;
    if |cs| <= 999 { DecUpTo999(|cs|); }
  }

  /** The chunks put together again, in order, with the prefix restored. */
  function Joined(chunks: map<nat, seq<string>>, n: nat): seq<string>
    requires forall c: nat | c < n :: c in chunks
  {
    if n == 0 then [] else Joined(chunks, n - 1) + UnstripAll(chunks[n-1])
  }

  lemma {:induction false} UnstripConcat(a: seq<string>, b: seq<string>)
    ensures UnstripAll(a + b) == UnstripAll(a) + UnstripAll(b)
  {
    if a == [] {
      assert a + b == b;
    } else {
      assert (a + b)[1..] == a[1..] + b;
      UnstripConcat(a[1..], b);
    }
  }

  lemma {:induction false} JoinedIsFlatten(chunks: map<nat, seq<string>>, parts: seq<seq<string>>, n: nat)
    requires n <= |parts| && forall c: nat | c < n :: c in chunks && chunks[c] == parts[c]
    ensures Joined(chunks, n) == UnstripAll(Flatten(parts[..n]))
  {
    if n > 0 {
      JoinedIsFlatten(chunks, parts, n - 1);
      assert parts[..n] == parts[..n-1] + [parts[n-1]];
      FlattenAppend(parts[..n-1], parts[n-1]);
      UnstripConcat(Flatten(parts[..n-1]), parts[n-1]);
    }
  }

  predicate Regular(g: string) {
    StartsWithSg(g) && !StartsWithSg(g[3..])
  }

  ghost predicate Restorable(groups: seq<string>) {
    forall i | 0 <= i < |groups| :: Regular(groups[i])
  }

  lemma Pointwise(a: seq<string>, b: seq<string>, groups: seq<string>)
    requires |a| == |b| == |groups|
    requires forall i | 0 <= i < |b| :: a[i] == b[i] <==> Regular(groups[i])
    ensures a == b <==> Restorable(groups)
  {
    if a == b {
      assert forall i | 0 <= i < |groups| :: a[i] == b[i];
    }
  }

  lemma StripAllRoundTrip(groups: seq<string>)
    ensures UnstripAll(StripAll(groups)) == groups <==> Restorable(groups)
  {
    var back := UnstripAll(StripAll(groups));
    forall i | 0 <= i < |groups| ensures back[i] == groups[i] <==> Regular(groups[i]) {
      StripRoundTrip(groups[i]);
    }
    Pointwise(back, groups, groups);
  }

  /** All chunks of an interface give back its groups, exactly and in order, if and only if
      every group is "sg-" followed by something that does not start with "sg-". */
  lemma RestoreIsExact(nid: string, groups: seq<string>, ts: nat, chunks: map<nat, seq<string>>)
    requires var parts := Chunks(nid, StripAll(groups), 0, ts);
             forall c: nat | c < |parts| :: c in chunks && chunks[c] == parts[c]
    ensures Joined(chunks, |Chunks(nid, StripAll(groups), 0, ts)|) == groups <==> Restorable(groups)
  {
    var parts := Chunks(nid, StripAll(groups), 0, ts);
    ChunksAreGreedy(nid, StripAll(groups), 0, ts);
    JoinedIsFlatten(chunks, parts, |parts|);
    assert parts[..|parts|] == parts;
    StripAllRoundTrip(groups);
  }
}
