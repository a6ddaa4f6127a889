/** The eSSD crawl (`readEssdData` / `readEssdSystemsData`): the root
    document, then Systems -> member -> Storage -> storage member -> Drives,
    saving every node that reads with status 200 and skipping the subtree of
    every node that does not, while sibling iteration carries on.

    The remote tree is pure and never depends on the store, so the crawl is
    stated as the ordered sequence of nodes it saves (`CrawlVisits`) folded
    through `Save` (`SaveAll`); this is the source's interleaving of reads and
    writes, one node at a time, in the same order. */
module Crawler {
  import opened Wrappers
  import opened KeyValueStore
  import opened Redfish
  import opened EssdSave

  const RootPath: string := "/redfish/v1"
  const SystemsPath: string := "/redfish/v1/Systems"

  /** A node the crawl saves: the request path (the store key before the
      prefix) and the document read there. */
  datatype Visit = Visit(path: string, body: Body)

  /** The levels below Systems, and what links each level to the next:
      a member's single `Storage`, a storage collection's `Members`, a
      storage member's `Drives`. */
  datatype Level = Member | Storage | StorageMember | Drive

  function Rank(lvl: Level): nat {
    match lvl
    case Member => 3
    case Storage => 2
    case StorageMember => 1
    case Drive => 0
  }

  function Child(lvl: Level): (c: Level)
    requires lvl != Drive
    ensures Rank(c) + 1 == Rank(lvl)
  {
    match lvl
    case Member => Storage
    case Storage => StorageMember
    case StorageMember => Drive
  }

  function Children(lvl: Level, b: Body): seq<string> {
    match lvl
    case Member => [b.storage]
    case Storage => b.members
    case StorageMember => b.drives
    case Drive => []
  }

  /** One loop iteration: read `p`; on a non-200 `continue` (nothing saved
      below it); otherwise save it and descend. */
  function NodeVisits(remote: Remote, lvl: Level, p: string): seq<Visit>
    decreases Rank(lvl), 0
  {
    var resp := Get(remote, p);
    if resp.status != 200 then []
    else
      var below := if lvl == Drive then [] else EachVisits(remote, Child(lvl), Children(lvl, resp.body));
      [Visit(p, resp.body)] + below
  }

  /** One loop: the siblings `ps` in reported order. */
  function EachVisits(remote: Remote, lvl: Level, ps: seq<string>): seq<Visit>
    decreases Rank(lvl), |ps| + 1
  {
    if ps == [] then [] else NodeVisits(remote, lvl, ps[0]) + EachVisits(remote, lvl, ps[1..])
  }

  /** `Members@odata.count` must not exceed the length of `Members`, or
      `jsonSystems['Members'][i]` raises `IndexError`. */
  predicate WellFormed(remote: Remote) {
    Ok(remote, SystemsPath) ==>
      remote(SystemsPath).body.memberCount <= |remote(SystemsPath).body.members|
  }

  /** The members `range(count)` visits. */
  function Listed(b: Body): (ps: seq<string>)
    requires b.memberCount <= |b.members|
    ensures |ps| == if b.memberCount <= 0 then 0 else b.memberCount
    ensures forall i :: 0 <= i < |ps| ==> ps[i] == b.members[i]
  {
    if b.memberCount <= 0 then [] else b.members[..b.memberCount]
  }

  function SystemsVisits(remote: Remote): seq<Visit>
    requires WellFormed(remote)
  {
    var resp := Get(remote, SystemsPath);
    if resp.status != 200 then []
    else [Visit(SystemsPath, resp.body)] + EachVisits(remote, Member, Listed(resp.body))
  }

  /** The root is saved first; of its top-level entries only `Systems` leads
      anywhere (`Chassis`, `Managers` and `JsonSchemas` are no-ops). */
  function CrawlVisits(root: Body, remote: Remote): (vs: seq<Visit>)
    requires "Systems" in root.names ==> WellFormed(remote)
    ensures |vs| > 0 && vs[0] == Visit(RootPath, root)
    ensures "Systems" !in root.names || !Ok(remote, SystemsPath) ==> |vs| == 1
  {
    [Visit(RootPath, root)] + (if "Systems" in root.names then SystemsVisits(remote) else [])
  }

  /** Reference definition, independent of the traversal order: `x` is
      reached from `p` (at level `lvl`) when there is a chain of links from
      `p` down to `x` every node of which reads with status 200. */
  ghost predicate Reaches(remote: Remote, lvl: Level, p: string, x: string)
    decreases Rank(lvl)
  {
    && Ok(remote, p)
    && (|| x == p
        || (lvl != Drive
            && exists c :: c in Children(lvl, remote(p).body) && Reaches(remote, Child(lvl), c, x)))
  }

  lemma {:induction false} ReachesOk(remote: Remote, lvl: Level, p: string, x: string)
    requires Reaches(remote, lvl, p, x)
    ensures Ok(remote, x)
    decreases Rank(lvl)
  {
    if x != p {
      var c :| c in Children(lvl, remote(p).body) && Reaches(remote, Child(lvl), c, x);
      ReachesOk(remote, Child(lvl), c, x);
    }
  }

  /** What one subtree saves is exactly the set of nodes reached from its
      root, each with the document read at its own path. */
  lemma {:induction false} NodeVisitsReached(remote: Remote, lvl: Level, p: string, v: Visit)
    ensures v in NodeVisits(remote, lvl, p)
        <==> Reaches(remote, lvl, p, v.path) && v.body == remote(v.path).body
    decreases Rank(lvl), 0
  {
    if Ok(remote, p) && lvl != Drive {
      var kids := Children(lvl, remote(p).body);
      EachVisitsReached(remote, Child(lvl), kids, v);
      if v in EachVisits(remote, Child(lvl), kids) {
        var c :| c in kids && Reaches(remote, Child(lvl), c, v.path) && v.body == remote(v.path).body;
      }
    }
  }

  lemma {:induction false} EachVisitsReached(remote: Remote, lvl: Level, ps: seq<string>, v: Visit)
    ensures v in EachVisits(remote, lvl, ps)
        <==> exists c :: c in ps && Reaches(remote, lvl, c, v.path) && v.body == remote(v.path).body
    decreases Rank(lvl), |ps| + 1
  {
    if ps != [] {
      NodeVisitsReached(remote, lvl, ps[0], v);
      EachVisitsReached(remote, lvl, ps[1..], v);
      forall c | c in ps && Reaches(remote, lvl, c, v.path)
        ensures c == ps[0] || c in ps[1..]
      {
        assert ps == [ps[0]] + ps[1..];
      }
    }
  }

  /** Failure isolation: a sibling whose read fails contributes nothing,
      and the siblings around it contribute what they would on their own,
      in their reported order. */
  lemma {:induction false} FailedSiblingSkipped(remote: Remote, lvl: Level, before: seq<string>, p: string, after: seq<string>)
    requires !Ok(remote, p)
    ensures EachVisits(remote, lvl, before + [p] + after)
         == EachVisits(remote, lvl, before) + EachVisits(remote, lvl, after)
  {
    EachVisitsAppend(remote, lvl, before, [p] + after);
    assert before + [p] + after == before + ([p] + after);
    assert ([p] + after)[1..] == after;
  }

  lemma {:induction false} EachVisitsAppend(remote: Remote, lvl: Level, ps: seq<string>, qs: seq<string>)
    ensures EachVisits(remote, lvl, ps + qs) == EachVisits(remote, lvl, ps) + EachVisits(remote, lvl, qs)
    decreases |ps|
  {
    if ps == [] {
      assert ps + qs == qs;
    } else {
      assert (ps + qs)[1..] == ps[1..] + qs;
      EachVisitsAppend(remote, lvl, ps[1..], qs);
    }
  }

  /** The whole crawl, against the reference: besides the root, a node is
      saved exactly when Systems reads with 200 and the node is Systems
      itself or is reached from one of the first `Members@odata.count`
      members; it is saved with the document read at its own path. */
  lemma CrawlVisitsReached(root: Body, remote: Remote, v: Visit)
    requires "Systems" in root.names ==> WellFormed(remote)
    ensures v in CrawlVisits(root, remote) <==>
      || v == Visit(RootPath, root)
      || ("Systems" in root.names
          && Ok(remote, SystemsPath)
          && v.body == remote(v.path).body
          && (|| v.path == SystemsPath
              || exists m :: m in Listed(remote(SystemsPath).body) && Reaches(remote, Member, m, v.path)))
  {
    if "Systems" in root.names && Ok(remote, SystemsPath) {
      EachVisitsReached(remote, Member, Listed(remote(SystemsPath).body), v);
    }
  }

  /** Nothing but the root is saved unless it was read with status 200, and
      it is saved with the document that read returned. */
  lemma CrawlSavesOnlyReadNodes(root: Body, remote: Remote, v: Visit)
    requires "Systems" in root.names ==> WellFormed(remote)
    requires v in CrawlVisits(root, remote) && v != Visit(RootPath, root)
    ensures Ok(remote, v.path) && v.body == remote(v.path).body
  {
    CrawlVisitsReached(root, remote, v);
    if v.path != SystemsPath {
      var m :| m in Listed(remote(SystemsPath).body) && Reaches(remote, Member, m, v.path);
      ReachesOk(remote, Member, m, v.path);
    }
  }

  /** The crawl's writes: `save` of each visited node in turn. */
  function SaveAll(d: EssdDrive, db: Db, vs: seq<Visit>): (r: Db)
    ensures db.None? ==> r.None?
    ensures db.Some? && d.uuid.None? ==> r == db
    decreases |vs|
  {
    if vs == [] then db else SaveAll(d, Save(d, db, vs[0].path, Node(vs[0].body)), vs[1..])
  }

  /** The contents an unconditional write of every visit would leave. */
  function Overlay(data: map<string, Value>, uuid: string, vs: seq<Visit>): map<string, Value>
    decreases |vs|
  {
    if vs == [] then data
    else Overlay(data[RecordKey(uuid, vs[0].path) := Node(vs[0].body)], uuid, vs[1..])
  }

  /** The differential write path stores exactly what writing every node
      would store, and logs at most one write per node, each of them a write
      of some visited node under its record key; it never deletes. */
  lemma {:induction false} SaveAllEffect(d: EssdDrive, db: Db, vs: seq<Visit>)
    requires db.Some? && d.uuid.Some?
    ensures var r := SaveAll(d, db, vs);
      && r.Some?
      && r.value.data == Overlay(db.value.data, d.uuid.value, vs)
      && r.value.unreadable == db.value.unreadable
      && db.value.log <= r.value.log
      && |r.value.log| <= |db.value.log| + |vs|
      && forall i :: |db.value.log| <= i < |r.value.log| ==>
           exists v :: v in vs && r.value.log[i] == SaveOp(RecordKey(d.uuid.value, v.path), Node(v.body))
    decreases |vs|
  {
    if vs != [] {
      var db1 := Save(d, db, vs[0].path, Node(vs[0].body));
      SaveAllEffect(d, db1, vs[1..]);
      var r := SaveAll(d, db, vs);
      forall i | |db.value.log| <= i < |r.value.log|
        ensures exists v :: v in vs && r.value.log[i] == SaveOp(RecordKey(d.uuid.value, v.path), Node(v.body))
      {
        if i < |db1.value.log| {
          assert r.value.log[i] == db1.value.log[i];
          assert vs[0] in vs;
        } else {
          var v :| v in vs[1..] && r.value.log[i] == SaveOp(RecordKey(d.uuid.value, v.path), Node(v.body));
          assert v in vs;
        }
      }
    }
  }

  lemma SaveAllExtendsLog(d: EssdDrive, db: Db, vs: seq<Visit>)
    ensures db.Some? && d.uuid.Some? ==> SaveAll(d, db, vs).Some? && db.value.log <= SaveAll(d, db, vs).value.log
  {
    if db.Some? && d.uuid.Some? {
      SaveAllEffect(d, db, vs);
    }
  }

  /** `readEssdSystemsData`: a non-200 on Systems saves nothing. */
  function ReadEssdSystemsData(d: EssdDrive, db: Db, remote: Remote): (r: Db)
    requires WellFormed(remote)
    ensures !Ok(remote, SystemsPath) ==> r == db
  {
    SaveAll(d, db, SystemsVisits(remote))
  }

  /** `readEssdData`: save the root document, then crawl Systems if the root
      lists it. Systems is read, and its member count trusted, only then. */
  function ReadEssdData(d: EssdDrive, db: Db, remote: Remote): (r: Db)
    requires "Systems" in d.root.names ==> WellFormed(remote)
    ensures db.None? ==> r.None?
    ensures db.Some? && d.uuid.None? ==> r == db
    ensures db.Some? && d.uuid.Some? ==> r.Some? && db.value.log <= r.value.log
    ensures "Systems" !in d.root.names ==> r == Save(d, db, RootPath, Node(d.root))
    ensures !Ok(remote, SystemsPath) ==> r == Save(d, db, RootPath, Node(d.root))
  {
    var db1 := Save(d, db, RootPath, Node(d.root));
    if "Systems" in d.root.names then
      SaveAllExtendsLog(d, db1, SystemsVisits(remote));
      ReadEssdSystemsData(d, db1, remote)
    else db1
  }

  /** Without a "Systems" entry the Systems collection is never read, so
      even a remote whose Systems count overruns its `Members` is crawled:
      only the root is saved. */
  lemma CrawlWithoutSystems(root: Body)
    requires "Systems" !in root.names
    ensures var bad: Remote := _ => Response(200, Body({}, 5, [], "", [], map[]));
      && !WellFormed(bad)
      && CrawlVisits(root, bad) == [Visit(RootPath, root)]
  {
  }

  /** The crawl as a whole: the root's save followed by the save of every
      node in `CrawlVisits`, with the consequences of `SaveAllEffect`. */
  lemma ReadEssdDataSavesVisits(d: EssdDrive, db: Db, remote: Remote)
    requires "Systems" in d.root.names ==> WellFormed(remote)
    requires db.Some? && d.uuid.Some?
    ensures var r := ReadEssdData(d, db, remote);
      var vs := CrawlVisits(d.root, remote);
      && r.Some?
      && r.value.data == Overlay(db.value.data, d.uuid.value, vs)
      && |r.value.log| <= |db.value.log| + |vs|
      && forall i :: |db.value.log| <= i < |r.value.log| ==>
           exists v :: v in vs && r.value.log[i] == SaveOp(RecordKey(d.uuid.value, v.path), Node(v.body))
  {
    var vs := CrawlVisits(d.root, remote);
    assert vs[1..] == if "Systems" in d.root.names then SystemsVisits(remote) else [];
    assert SaveAll(d, db, vs) == ReadEssdData(d, db, remote);
    SaveAllEffect(d, db, vs);
  }
}
