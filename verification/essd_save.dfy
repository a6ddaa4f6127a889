/** The differential write path of `EssdDrive`: every record is stored under
    `/essd/<uuid>/<path>` (normalised), and a write is skipped when the store
    already holds the value. */
module EssdSave {
  import opened Wrappers
  import opened KeyValueStore
  import opened Redfish
  import opened Keys

  /** What the poller stores: a crawled document, or the liveness record
      (`/essd/uptimes`, a JSON object from uuid to last-seen second). */
  datatype Value = Node(body: Body) | Uptimes(times: map<string, int>)

  /** The store handle; `None` is Python's `db == None`. */
  type Db = Option<Store<Value>>

  /** The session state the write path reads: the device uuid
      (`root['UUID']`, possibly `None`) and the root document. */
  datatype EssdDrive = EssdDrive(uuid: Option<string>, root: Body)

  const EssdPrefix: string := "/essd/"

  function RecordKey(uuid: string, key: string): string {
    AddPrefix(EssdPrefix, uuid, key)
  }

  /** `EssdDrive.save`. Afterwards the store holds `data` at the record key
      and nothing else has changed; a write is logged exactly when the read
      did not give back `data` (a read that raises counts as "absent"). */
  function Save(d: EssdDrive, db: Db, key: string, data: Value): (r: Db)
    ensures db.None? ==> r.None?
    ensures db.Some? && d.uuid.None? ==> r == db
    ensures db.Some? && d.uuid.Some? ==>
      var st, k := db.value, RecordKey(d.uuid.value, key);
      && r.Some?
      && r.value.data == st.data[k := data]
      && r.value.unreadable == st.unreadable
      && (r.value.log == st.log <==> GetKeyValue(st, k) == Some(data))
      && (r.value.log == st.log || r.value.log == st.log + [SaveOp(k, data)])
  {
    if db.None? then db
    else if d.uuid.None? then db
    else
      var st := db.value;
      var k := RecordKey(d.uuid.value, key);
      if GetKeyValue(st, k) == Some(data) then db
      else Some(SaveKeyValue(st, k, data))
  }

  /** Saving the same value twice against a store that reads back what it
      saved is the same as saving it once: at most one write. */
  lemma SaveTwiceWritesOnce(d: EssdDrive, db: Db, key: string, data: Value)
    requires db.Some? && d.uuid.Some?
    requires RecordKey(d.uuid.value, key) !in db.value.unreadable
    ensures Save(d, Save(d, db, key, data), key, data) == Save(d, db, key, data)
    ensures |Save(d, Save(d, db, key, data), key, data).value.log| <= |db.value.log| + 1
  {
  }

  /** `save` exactly as written: the value read back is a decoded `str`, and
      every value the poller saves is a parsed `dict`; in Python a `str` never
      equals a `dict`, so the early return never fires and every call writes. */
  function SaveAsWritten(d: EssdDrive, db: Db, key: string, data: Value): (r: Db)
    ensures db.Some? && d.uuid.Some? ==>
      r == Some(SaveKeyValue(db.value, RecordKey(d.uuid.value, key), data))
    ensures db.None? || d.uuid.None? ==> r == db
  {
    if db.None? then db
    else if d.uuid.None? then db
    else Some(SaveKeyValue(db.value, RecordKey(d.uuid.value, key), data))
  }

  /** The discrepancy: as written, polling an unchanged document twice writes
      it twice, although the store already holds it the second time. */
  lemma AsWrittenSaveRewritesUnchanged(d: EssdDrive, db: Db, key: string, data: Value)
    requires db.Some? && d.uuid.Some?
    requires RecordKey(d.uuid.value, key) !in db.value.unreadable
    ensures var once := SaveAsWritten(d, db, key, data);
      && GetKeyValue(once.value, RecordKey(d.uuid.value, key)) == Some(data)
      && Save(d, once, key, data) == once
      && |SaveAsWritten(d, once, key, data).value.log| == |db.value.log| + 2
  {
  }
}
