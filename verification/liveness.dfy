/** The liveness record `/essd/uptimes`: `updateUuid` stamps the device's
    uuid with the current second, and `removeUuidOlderThan` drops every uuid
    that is more than `sec` seconds behind the newest one and deletes its
    `/essd/<uuid>` key. The clock is the parameter `now`; the record's JSON
    text is modelled directly as the map it encodes. */
module Liveness {
  import opened Wrappers
  import opened KeyValueStore
  import opened EssdSave

  const UptimesKey: string := "/essd/uptimes"

  /** The exceptions these operations let escape. */
  datatype Error =
    | Malformed            // json.loads of something that is not an uptimes record
    | Unsortable           // json.dumps(sort_keys=True) comparing the key None with a str
    | EmptyMax             // max() of no uptimes
    | Unbound(name: string) // NameError

  /** The stored map: an absent or unreadable record reads as empty (the
      source's `tmpString = ''`, and `{}` for the empty string). */
  function Previous(st: Store<Value>): (r: Result<map<string, int>, Error>)
    ensures UptimesKey !in st.data || UptimesKey in st.unreadable ==> r == Success(map[])
    ensures r.Failure? <==> UptimesKey in st.data && UptimesKey !in st.unreadable && st.data[UptimesKey].Node?
    ensures r.Success? && UptimesKey in st.data && UptimesKey !in st.unreadable ==>
      st.data[UptimesKey] == Uptimes(r.value)
  {
    var got: Option<Value> := GetKeyValue(st, UptimesKey);
    match got
    case None => Success(map[])
    case Some(Uptimes(m)) => Success(m)
    case Some(Node(_)) => Failure(Malformed)
  }

  /** `st'` is `st` with one more write: the record `prev` with `u` stamped
      `now`, every other entry as it was. */
  predicate Stamped(st: Store<Value>, st': Store<Value>, prev: map<string, int>, u: string, now: int) {
    && |st'.log| == |st.log| + 1
    && st'.log[..|st.log|] == st.log
    && var op := st'.log[|st.log|];
    && op.SaveOp? && op.key == UptimesKey && op.value.Uptimes?
    && op.value.times.Keys == prev.Keys + {u}
    && op.value.times[u] == now
    && (forall x :: x in prev && x != u ==> op.value.times[x] == prev[x])
    && st'.data == st.data[UptimesKey := op.value]
    && st'.unreadable == st.unreadable
  }

  /** `updateUuid`. The write is unconditional. A `None` uuid is stored as
      JSON's "null" when it is the only key, and makes the sorted dump raise
      when there are others. */
  function UpdateUuid(d: EssdDrive, db: Db, now: int): (r: Result<Db, Error>)
    ensures db.None? ==> r == Success(None)
    ensures db.Some? && Previous(db.value).Failure? ==> r == Failure(Malformed)
    ensures db.Some? && Previous(db.value).Success? && d.uuid.Some? ==>
      r.Success? && r.value.Some? && Stamped(db.value, r.value.value, Previous(db.value).value, d.uuid.value, now)
    ensures db.Some? && Previous(db.value).Success? && d.uuid.None? ==>
      if |Previous(db.value).value| == 0
      then r.Success? && r.value.Some? && Stamped(db.value, r.value.value, map[], "null", now)
      else r == Failure(Unsortable)
  {
    if db.None? then Success(None)
    else
      var st := db.value;
      match Previous(st)
      case Failure(e) => Failure(e)
      case Success(prev) =>
        if d.uuid.None? && |prev| > 0 then Failure(Unsortable)
        else
          var u := if d.uuid.Some? then d.uuid.value else "null";
          Success(Some(SaveKeyValue(st, UptimesKey, Uptimes(prev[u := now]))))
  }

  /** `t` is the newest uptime of `times`. */
  predicate IsLatest(times: map<string, int>, t: int) {
    && (exists u :: u in times && times[u] == t)
    && (forall u :: u in times ==> times[u] <= t)
  }

  lemma {:induction false} LatestExists(times: map<string, int>)
    requires |times| > 0
    ensures exists t :: IsLatest(times, t)
    decreases |times|
  {
    var u :| u in times;
    var rest := times - {u};
    if |rest| == 0 {
      assert times.Keys == rest.Keys + {u};
      assert rest.Keys == {};
      assert IsLatest(times, times[u]);
    } else {
      LatestExists(rest);
      var t :| IsLatest(rest, t);
      var w :| w in rest && rest[w] == t;
      assert forall x :: x in times ==> x == u || x in rest;
      if times[u] <= t {
        assert times[w] == t;
        assert IsLatest(times, t);
      } else {
        assert IsLatest(times, times[u]);
      }
    }
  }

  ghost function Latest(times: map<string, int>): (t: int)
    requires |times| > 0
    ensures IsLatest(times, t)
  {
    LatestExists(times);
    var t :| IsLatest(times, t);
    t
  }

  lemma LatestUnique(times: map<string, int>, t: int)
    requires IsLatest(times, t)
    ensures |times| > 0 && t == Latest(times)
  {
    var u :| u in times && times[u] == t;
    var v :| v in times && times[v] == Latest(times);
  }

  /** The entries `removeUuidOlderThan` keeps. */
  function Kept(times: map<string, int>, sec: int, latest: int): map<string, int> {
    map u | u in times && !(times[u] + sec < latest) :: times[u]
  }

  /** The entries it removes; with `Kept` they split `times` in two. */
  function Evicted(times: map<string, int>, sec: int, latest: int): (gone: map<string, int>)
    ensures gone.Keys !! Kept(times, sec, latest).Keys
    ensures gone.Keys + Kept(times, sec, latest).Keys == times.Keys
    ensures forall u :: u in gone ==> gone[u] == times[u] && times[u] + sec < latest
  {
    map u | u in times && times[u] + sec < latest :: times[u]
  }

  /** With a non-negative threshold the newest entry is always kept; so a
      record with a single uuid never loses it. */
  lemma NewestSurvives(times: map<string, int>, sec: int, u: string)
    requires sec >= 0 && u in times && IsLatest(times, times[u])
    ensures u in Kept(times, sec, times[u]) && u !in Evicted(times, sec, times[u])
  {
  }

  lemma SingleUuidNeverEvicted(times: map<string, int>, sec: int, u: string)
    requires sec >= 0 && times.Keys == {u}
    ensures Evicted(times, sec, Latest(times)) == map[]
    ensures Kept(times, sec, Latest(times)) == times
  {
    var t := Latest(times);
    var w :| w in times && times[w] == t;
    assert w == u;
  }

  /** The example of three devices: A and B at 100, C at 150, threshold 40;
      C is the newest and A and B (100 + 40 < 150) go. */
  lemma ThreeDeviceEviction()
    ensures var times := map["A" := 100, "B" := 100, "C" := 150];
      && Latest(times) == 150
      && Evicted(times, 40, 150).Keys == {"A", "B"}
      && Kept(times, 40, 150) == map["C" := 150]
  {
    var times := map["A" := 100, "B" := 100, "C" := 150];
    assert times.Keys == {"A", "B", "C"};
    assert "C" in times && times["C"] == 150;
    assert IsLatest(times, 150);
    LatestUnique(times, 150);
    var gone := Evicted(times, 40, 150);
    assert "A" in gone && "B" in gone && "C" !in gone;
    assert gone.Keys == {"A", "B"};
    var keep := Kept(times, 40, 150);
    assert keep.Keys == {"C"};
  }

  /** `max(allUptimes)`. */
  method MaxUptime(times: map<string, int>) returns (latest: int)
    requires |times| > 0
    ensures IsLatest(times, latest)
  {
    var first :| first in times;
    latest := times[first];
    var todo := times.Keys - {first};
    while todo != {}
      invariant todo <= times.Keys
      invariant exists u :: u in times && times[u] == latest
      invariant forall u :: u in times && u !in todo ==> times[u] <= latest
      decreases todo
    {
      var u :| u in todo;
      if times[u] > latest {
        latest := times[u];
      }
      todo := todo - {u};
    }
  }

  function DeviceKey(u: string): string {
    EssdPrefix + u
  }

  function DeviceKeys(us: set<string>): set<string> {
    set u | u in us :: DeviceKey(u)
  }

  /** `op` deletes `/essd/<u>` for some `u` of `us`. */
  predicate DeletesDevice(op: Op<Value>, us: set<string>) {
    op.DeleteOp? && EssdPrefix <= op.key && op.key[|EssdPrefix|..] in us
  }

  /** `dels` deletes `/essd/<u>` once for each `u` of `us`, and nothing else. */
  predicate DeletesOnce(dels: seq<Op<Value>>, us: set<string>) {
    && |dels| == |us|
    && (forall i :: 0 <= i < |dels| ==> DeletesDevice(dels[i], us))
    && (forall u :: u in us ==> DeleteOp(DeviceKey(u)) in dels)
    && (forall i, j :: 0 <= i < j < |dels| ==> dels[i] != dels[j])
  }

  lemma DeletesOnceStep(dels: seq<Op<Value>>, us: set<string>, u: string)
    requires DeletesOnce(dels, us) && u !in us
    ensures DeletesOnce(dels + [DeleteOp(DeviceKey(u))], us + {u})
  {
    var op := DeleteOp(DeviceKey(u));
    var dels' := dels + [op];
    assert DeviceKey(u)[|EssdPrefix|..] == u;
    forall i | 0 <= i < |dels|
      ensures dels'[i] != op && DeletesDevice(dels'[i], us + {u})
    {
      assert dels'[i] == dels[i];
    }
  }

  lemma DeviceKeysAdd(us: set<string>, u: string)
    ensures DeviceKeys(us + {u}) == DeviceKeys(us) + {DeviceKey(u)}
  {
  }

  /** One iteration of the delete loop keeps its invariant. */
  lemma DeleteStep(saved: Store<Value>, cur: Store<Value>, dels: seq<Op<Value>>, done: set<string>, u: string)
    requires cur.log == saved.log + dels && DeletesOnce(dels, done) && u !in done
    requires cur.data == saved.data - DeviceKeys(done) && cur.unreadable == saved.unreadable
    ensures var cur' := DeleteKeyValue(cur, DeviceKey(u));
      && cur'.log == saved.log + (dels + [DeleteOp(DeviceKey(u))])
      && DeletesOnce(dels + [DeleteOp(DeviceKey(u))], done + {u})
      && cur'.data == saved.data - DeviceKeys(done + {u})
      && cur'.unreadable == saved.unreadable
  {
    DeletesOnceStep(dels, done, u);
    DeviceKeysAdd(done, u);
  }

  /** The delete loop: one delete of `/essd/<u>` per removed uuid `u` of
      `gone`, each issued once, in some order. */
  method DeleteDevices(saved: Store<Value>, gone: set<string>) returns (cur: Store<Value>)
    ensures |cur.log| >= |saved.log|
    ensures cur.log[..|saved.log|] == saved.log
    ensures DeletesOnce(cur.log[|saved.log|..], gone)
    ensures cur.data == saved.data - DeviceKeys(gone)
    ensures cur.unreadable == saved.unreadable
  {
    cur := saved;
    var todo := gone;
    ghost var done: set<string> := {};
    ghost var dels: seq<Op<Value>> := [];
    while todo != {}
      invariant todo !! done && todo + done == gone
      invariant cur.log == saved.log + dels
      invariant DeletesOnce(dels, done)
      invariant cur.data == saved.data - DeviceKeys(done)
      invariant cur.unreadable == saved.unreadable
      decreases todo
    {
      var u :| u in todo;
      DeleteStep(saved, cur, dels, done, u);
      cur := DeleteKeyValue(cur, DeviceKey(u));
      dels := dels + [DeleteOp(DeviceKey(u))];
      todo := todo - {u};
      done := done + {u};
    }
    assert done == gone;
    assert cur.log[|saved.log|..] == dels;
  }

  /** `st'` is `st` after the sweep: one write of the kept entries, then
      one delete of `/essd/<u>` per removed `u` and no other delete. */
  predicate Swept(st: Store<Value>, st': Store<Value>, keep: map<string, int>, gone: set<string>) {
    var base := |st.log| + 1;
    && |st'.log| >= base
    && st'.log[..base] == st.log + [SaveOp(UptimesKey, Uptimes(keep))]
    && DeletesOnce(st'.log[base..], gone)
    && st'.data == st.data[UptimesKey := Uptimes(keep)] - DeviceKeys(gone)
    && st'.unreadable == st.unreadable
  }

  /** `removeUuidOlderThan`, with the newest uptime taken over the loaded
      record `uuids` (essd_drive.py:124 reads the unbound name `uuid`
      instead; `RemoveUuidOlderThanAsWritten` models that). A read that
      raises returns quietly; an empty record is kept as the source has it:
      `max` raises before anything is written, rather than a silent no-op;
      the kept entries are written back even when nothing is removed. */
  method RemoveUuidOlderThan(db: Db, sec: int) returns (r: Result<Db, Error>)
    ensures db.None? ==> r == Success(None)
    ensures db.Some? && GetKeyValue(db.value, UptimesKey).None? ==> r == Success(db)
    ensures db.Some? && GetKeyValue(db.value, UptimesKey).Some? ==>
      match GetKeyValue(db.value, UptimesKey).value
      case Node(_) => r == Failure(Malformed)
      case Uptimes(times) =>
        if |times| == 0 then r == Failure(EmptyMax)
        else
          var latest := Latest(times);
          && r.Success? && r.value.Some?
          && Swept(db.value, r.value.value, Kept(times, sec, latest), Evicted(times, sec, latest).Keys)
  {
    if db.None? {
      return Success(None);
    }
    var st := db.value;
    var stored := GetKeyValue(st, UptimesKey);
    if stored.None? {
      return Success(db);
    }
    if stored.value.Node? {
      return Failure(Malformed);
    }
    var times := stored.value.times;
    if |times| == 0 {
      return Failure(EmptyMax);
    }
    var latest := MaxUptime(times);
    LatestUnique(times, latest);
    var keep := Kept(times, sec, latest);
    var gone := Evicted(times, sec, latest).Keys;

    var saved := SaveKeyValue(st, UptimesKey, Uptimes(keep));
    var cur := DeleteDevices(saved, gone);
    return Success(Some(cur));
  }

  /** `removeUuidOlderThan` exactly as written: line 124 reads `uuid`, a name
      bound nowhere, so once the record has been loaded the call raises
      `NameError` before anything is written or deleted. */
  function RemoveUuidOlderThanAsWritten(db: Db, sec: int): (r: Result<Db, Error>)
    ensures r.Success? ==> r == Success(db)
  {
    if db.None? then Success(None)
    else
      var got: Option<Value> := GetKeyValue(db.value, UptimesKey);
      match got
      case None => Success(db)
      case Some(Node(_)) => Failure(Malformed)
      case Some(Uptimes(_)) => Failure(Unbound("uuid"))
  }

  /** The discrepancy: as written, a stale uuid is never removed. With A
      and B at 100 and C at 150 under a threshold of 40, the corrected sweep
      evicts A and B, while the code as written raises and keeps all three. */
  lemma AsWrittenNeverEvicts(st: Store<Value>, sec: int)
    requires GetKeyValue(st, UptimesKey) == Some(Uptimes(map["A" := 100, "B" := 100, "C" := 150]))
    requires sec == 40
    ensures RemoveUuidOlderThanAsWritten(Some(st), sec) == Failure(Unbound("uuid"))
    ensures var times := map["A" := 100, "B" := 100, "C" := 150];
      Evicted(times, sec, Latest(times)).Keys == {"A", "B"}
  {
    ThreeDeviceEviction();
  }
}
