/** Storage-key normalisation of the eSSD poller: `removeDuplicates`
    collapses every run of '/' into one '/', and `addPrefix` builds
    `tag/uuid/key` and normalises it. */
module Keys {

  /** No two adjacent characters of `s` are both '/'. */
  predicate NoDoubleSlash(s: string) {
    forall i :: 0 <= i < |s| - 1 ==> !(s[i] == '/' && s[i + 1] == '/')
  }

  /** The characters of `s` other than '/', in order. */
  function Segments(s: string): string {
    if s == [] then []
    else if s[0] == '/' then Segments(s[1..])
    else [s[0]] + Segments(s[1..])
  }

  /** The source's character loop: `prevSlash` is "the last character seen
      was '/'" (Python's `lastChar == '/'`); a '/' following a '/' is
      skipped, every other character is appended. */
  function Dedup(s: string, prevSlash: bool): string {
    if s == [] then []
    else if s[0] == '/' && prevSlash then Dedup(s[1..], true)
    else [s[0]] + Dedup(s[1..], s[0] == '/')
  }

  /** Reference definition: drop every '/' whose successor is also '/', so
      that of each maximal run of '/' exactly its last one remains. */
  function Collapse(s: string): string
    decreases |s|
  {
    if |s| <= 1 then s
    else if s[0] == '/' && s[1] == '/' then Collapse(s[1..])
    else [s[0]] + Collapse(s[1..])
  }

  function RemoveDuplicates(s: string): (r: string)
    ensures NoDoubleSlash(r)
    ensures |r| <= |s|
    ensures Segments(r) == Segments(s)
  {
    DedupShape(s, false);
    Dedup(s, false)
  }

  function AddPrefix(tag: string, uuid: string, key: string): (r: string)
    ensures NoDoubleSlash(r)
    ensures Segments(r) == Segments(tag + uuid + key)
  {
    SegmentsOfJoined(tag, uuid, key);
    RemoveDuplicates(tag + "/" + uuid + "/" + key)
  }

  /** The separators `addPrefix` inserts carry no segment characters. */
  lemma SegmentsOfJoined(tag: string, uuid: string, key: string)
    ensures Segments(tag + "/" + uuid + "/" + key) == Segments(tag + uuid + key)
  {
    var a := tag + "/";
    var b := a + uuid;
    var c := b + "/";
    SegmentsAppend(tag, "/");
    SegmentsAppend(a, uuid);
    SegmentsAppend(b, "/");
    SegmentsAppend(c, key);
    SegmentsAppend(tag, uuid);
    SegmentsAppend(tag + uuid, key);
  }

  lemma {:induction false} SegmentsAppend(a: string, b: string)
    ensures Segments(a + b) == Segments(a) + Segments(b)
    decreases |a|
  {
    if a != [] {
      assert (a + b)[1..] == a[1..] + b;
      SegmentsAppend(a[1..], b);
    } else {
      assert a + b == b;
    }
  }

  /** Everything `RemoveDuplicates` promises, for any starting state of the
      loop; with `prevSlash` set, the output does not start with '/'. */
  lemma {:induction false} DedupShape(s: string, prevSlash: bool)
    ensures NoDoubleSlash(Dedup(s, prevSlash))
    ensures prevSlash && Dedup(s, prevSlash) != [] ==> Dedup(s, prevSlash)[0] != '/'
    ensures |Dedup(s, prevSlash)| <= |s|
    ensures Segments(Dedup(s, prevSlash)) == Segments(s)
    decreases |s|
  {
    if s != [] {
      DedupShape(s[1..], s[0] == '/');
      if !(s[0] == '/' && prevSlash) {
        var t := Dedup(s[1..], s[0] == '/');
        assert Dedup(s, prevSlash) == [s[0]] + t;
        assert ([s[0]] + t)[1..] == t;
      }
    }
  }

  /** The source's loop computes the reference collapse. */
  lemma {:induction false} RemoveDuplicatesIsCollapse(s: string)
    ensures RemoveDuplicates(s) == Collapse(s)
  {
    DedupCollapse(s);
  }

  lemma {:induction false} DedupCollapse(s: string)
    ensures Dedup(s, false) == Collapse(s)
    ensures s != [] && s[0] == '/' ==> Collapse(s) != [] && Collapse(s)[0] == '/' && Dedup(s, true) == Collapse(s)[1..]
    decreases |s|
  {
    if s != [] {
      var t := s[1..];
      DedupCollapse(t);
      if s[0] == '/' && t != [] && t[0] != '/' {
        assert Dedup(t, true) == Dedup(t, false);
      }
    }
  }

  /** A string with no "//" is left unchanged, whatever the loop state,
      provided a leading '/' is not preceded by a '/'. */
  lemma {:induction false} DedupFixed(s: string, prevSlash: bool)
    requires NoDoubleSlash(s)
    requires prevSlash ==> s == [] || s[0] != '/'
    ensures Dedup(s, prevSlash) == s
    decreases |s|
  {
    if s != [] {
      assert NoDoubleSlash(s[1..]);
      DedupFixed(s[1..], s[0] == '/');
      assert s == [s[0]] + s[1..];
    }
  }

  /** The strings `RemoveDuplicates` leaves unchanged are exactly those
      without "//". */
  lemma RemoveDuplicatesFixedPoints(s: string)
    ensures RemoveDuplicates(s) == s <==> NoDoubleSlash(s)
  {
    if NoDoubleSlash(s) {
      DedupFixed(s, false);
    }
  }

  lemma RemoveDuplicatesIdempotent(s: string)
    ensures RemoveDuplicates(RemoveDuplicates(s)) == RemoveDuplicates(s)
  {
    RemoveDuplicatesFixedPoints(RemoveDuplicates(s));
  }

  /** Normalising a concatenation: the second half is processed in the
      state the first half leaves the loop in. */
  lemma {:induction false} DedupAppend(a: string, b: string, prevSlash: bool)
    ensures Dedup(a + b, prevSlash)
         == Dedup(a, prevSlash) + Dedup(b, if a == [] then prevSlash else a[|a| - 1] == '/')
    decreases |a|
  {
    if a == [] {
      assert a + b == b;
    } else {
      assert (a + b)[1..] == a[1..] + b;
      DedupAppend(a[1..], b, a[0] == '/');
      if |a| > 1 {
        assert a[1..][|a[1..]| - 1] == a[|a| - 1];
      }
    }
  }

  /** A normalised key begins with its tag whenever the tag itself has no
      "//" — in particular every eSSD key begins with "/essd/". */
  lemma AddPrefixStartsWithTag(tag: string, uuid: string, key: string)
    requires NoDoubleSlash(tag)
    ensures tag <= AddPrefix(tag, uuid, key)
  {
    var rest := "/" + uuid + "/" + key;
    assert tag + "/" + uuid + "/" + key == tag + rest;
    DedupAppend(tag, rest, false);
    DedupFixed(tag, false);
  }

  lemma EssdKeyShape(uuid: string, key: string)
    ensures "/essd/" <= AddPrefix("/essd/", uuid, key)
    ensures NoDoubleSlash(AddPrefix("/essd/", uuid, key))
  {
    AddPrefixStartsWithTag("/essd/", uuid, key);
  }
}
