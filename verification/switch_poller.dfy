/** The lifecycle of `SwitchPoller`: a `_running` flag, the switch client
    chosen at `start` from the configured switch type, and the calls it makes
    on the background-thread base class, recorded in order. */
module SwitchPoller {
  import opened Wrappers

  /** The configuration the poller is built from (`swArg`). */
  datatype SwitchArg = SwitchArg(swType: string)

  /** The only client `start` knows how to build. */
  datatype Client = MellanoxClient(arg: SwitchArg)

  /** Calls on the thread base class; its scheduling is not modelled. */
  datatype ThreadCall =
    | ThreadStart(name: string, arg: SwitchArg, intervalSecs: int)
    | ThreadStop

  datatype Poller = Poller(
    arg: SwitchArg,
    intervalSecs: int,
    running: bool,
    client: Option<Client>,
    calls: seq<ThreadCall>)

  datatype Error = InvalidSwitchType(swType: string)

  const ThreadName: string := "SwitchPoller"

  /** Python's `str.lower()` on ASCII letters; every other character is
      left alone. */
  function LowerChar(c: char): char {
    if 'A' <= c <= 'Z' then (c as int + 32) as char else c
  }

  function Lower(s: string): (r: string)
    ensures |r| == |s|
    ensures forall i :: 0 <= i < |s| ==> r[i] == LowerChar(s[i])
  {
    if s == [] then [] else [LowerChar(s[0])] + Lower(s[1..])
  }

  /** Two switch types that differ only in the case of ASCII letters. */
  predicate SameIgnoringCase(a: string, b: string) {
    |a| == |b| && forall i :: 0 <= i < |a| ==> LowerChar(a[i]) == LowerChar(b[i])
  }

  /** `SwitchPoller.__init__`: not running, no client, no thread activity. */
  function Init(arg: SwitchArg, intervalSecs: int): (p: Poller)
    ensures !p.running && p.client.None? && p.calls == []
    ensures p.arg == arg && p.intervalSecs == intervalSecs
  {
    Poller(arg, intervalSecs, false, None, [])
  }

  /** `start`: a switch type whose lowercase form is "mellanox" builds the
      client, sets the flag and starts the thread; any other raises before
      touching the poller, which the caller keeps unchanged. */
  function Start(p: Poller): (r: Result<Poller, Error>)
    ensures r.Success? <==> Lower(p.arg.swType) == "mellanox"
    ensures r.Success? ==>
      && r.value.running
      && r.value.client == Some(MellanoxClient(p.arg))
      && r.value.calls == p.calls + [ThreadStart(ThreadName, p.arg, p.intervalSecs)]
      && r.value.arg == p.arg && r.value.intervalSecs == p.intervalSecs
    ensures r.Failure? ==> r.error == InvalidSwitchType(p.arg.swType)
  {
    if Lower(p.arg.swType) == "mellanox" then
      var withClient := p.(client := Some(MellanoxClient(p.arg)));
      var flagged := withClient.(running := true);
      Success(flagged.(calls := flagged.calls + [ThreadStart(ThreadName, p.arg, p.intervalSecs)]))
    else
      Failure(InvalidSwitchType(p.arg.swType))
  }

  /** `stop`: stops the thread (whatever the state) and clears the flag. */
  function Stop(p: Poller): (r: Poller)
    ensures !r.running
    ensures r.calls == p.calls + [ThreadStop]
    ensures r.client == p.client && r.arg == p.arg && r.intervalSecs == p.intervalSecs
  {
    p.(calls := p.calls + [ThreadStop], running := false)
  }

  /** `is_running`: the flag that `start` sets and `stop` clears. */
  function IsRunning(p: Poller): (r: bool)
    ensures r <==> p.running
  {
    p.running
  }

  /** `__del__`: stop only a running poller. */
  function Teardown(p: Poller): (r: Poller)
    ensures !r.running
    ensures !p.running ==> r == p
    ensures p.running ==> r.calls == p.calls + [ThreadStop]
  {
    if p.running then Stop(p) else p
  }

  /** The comparison is case-insensitive: switch types differing only in
      letter case are accepted or refused alike. */
  lemma {:induction false} StartIgnoresCase(p: Poller, swType: string)
    requires SameIgnoringCase(p.arg.swType, swType)
    ensures Start(p).Success? == Start(p.(arg := SwitchArg(swType))).Success?
  {
    assert Lower(p.arg.swType) == Lower(swType);
  }

  lemma LowerIs(s: string, t: string)
    requires |s| == |t| && forall i :: 0 <= i < |s| ==> LowerChar(s[i]) == t[i]
    ensures Lower(s) == t
  {
  }

  lemma AcceptedSpellings(p: Poller)
    ensures Start(p.(arg := SwitchArg("mellanox"))).Success?
    ensures Start(p.(arg := SwitchArg("Mellanox"))).Success?
    ensures Start(p.(arg := SwitchArg("MELLANOX"))).Success?
    ensures Start(p.(arg := SwitchArg("mlnx"))).Failure?
  {
    LowerIs("mellanox", "mellanox");
    LowerIs("Mellanox", "mellanox");
    LowerIs("MELLANOX", "mellanox");
    assert |Lower("mlnx")| != |"mellanox"|;
  }

  /** Observing the flag along a lifecycle: running after an accepted
      start, stopped after `stop` whatever came before, and teardown always
      leaves it stopped and is idempotent. */
  lemma LifecycleObservations(p: Poller)
    ensures Start(p).Success? ==> IsRunning(Start(p).value)
    ensures Start(p).Success? ==> !IsRunning(Stop(Start(p).value))
    ensures !IsRunning(Stop(p)) && !IsRunning(Stop(Stop(p)))
    ensures Teardown(Teardown(p)) == Teardown(p)
    ensures !IsRunning(Teardown(p))
  {
  }
}
