/**
 * The ASCII cache dump as pure step functions over an abstract network.
 *
 * The network is an oracle: `vdo(x, s)` is what sending the slab-`x` command
 * to server `s` returns, and `readable(x)` is the sequence of responses the
 * readable-server poll yields during the collection pass of slab `x`, each
 * tagged with the server it came from.  Each step function computes "the rest
 * of the dump" from a position and a state, so the imperative driver can keep
 * `Spec(start) == Spec(now)` as its loop invariant.  A ghost trace records
 * every send, every response drained and every callback invocation.
 */
module DumpModel {
  import opened Wrappers
  import opened ReturnCodes
  import opened Text
  import opened ItemLine
  import opened DumpCommand

  /** What a dump callback is given besides the handle and the context. */
  datatype DumpArgs = DumpArgs(key: seq<char>, keyLength: nat, expire: nat)

  /** A user callback, seen only through the code it returns. */
  type DumpFn = DumpArgs -> ReturnCode

  /** One line drained from server `server`, with the code the response reader gave it. */
  datatype Response = Response(server: nat, rc: ReturnCode, line: seq<char>)

  datatype Network = Network(vdo: (nat, nat) -> ReturnCode, readable: nat -> seq<Response>)

  /**
   * The handle's fixed configuration: server versions (as found by
   * `memcached_version`), the size of the command buffer, and whether
   * recording an error on a server instance also records it on the handle.
   */
  datatype Config = Config(servers: seq<Version>, commandSize: nat, instanceErrorReachesRoot: bool)

  datatype Event =
    | Sent(slab: nat, server: nat, command: seq<char>)
    | Received(slab: nat, server: nat, rc: ReturnCode, line: seq<char>)
    | Called(slab: nat, server: nat, callback: nat, args: DumpArgs)

  /** The mutable error state of the handle and its instances, and the trace so far. */
  datatype DumpState = DumpState(rootError: Option<ReturnCode>, instanceErrors: seq<Option<ReturnCode>>, trace: seq<Event>)

  datatype Step = Going(st: DumpState) | Stopped(st: DumpState, rc: ReturnCode)

  /** Every response the poll can yield comes from one of the handle's servers. */
  predicate WellFormed(c: Config, net: Network) {
    forall x, i :: 0 <= x < SlabClassCount && 0 <= i < |net.readable(x)| ==> net.readable(x)[i].server < |c.servers|
  }

  /** The slab-`x` command as sent on the wire. */
  function Command(x: nat): seq<char> {
    CachedumpCommand(Decimal(x))
  }

  const IllegalSlabIdPrefix: seq<char> := "CLIENT_ERROR Illegal slab id"

  /** `strncmp(buffer, "CLIENT_ERROR Illegal slab id", 28) == 0`. */
  predicate IsIllegalSlabId(line: seq<char>) {
    IllegalSlabIdPrefix <= line
  }

  /** The test compares exactly the first 28 characters of the line with the message. */
  lemma IllegalSlabIdIsPrefix(line: seq<char>)
    ensures |IllegalSlabIdPrefix| == 28
    ensures IsIllegalSlabId(line) <==> |line| >= 28 && line[..28] == IllegalSlabIdPrefix
  {
  }

  /** Responses that end the dump at once: all but ITEM, END and the illegal-slab-id client error. */
  predicate IsFatal(r: Response): (fatal: bool)
    ensures r.rc.Item? || r.rc.End? ==> !fatal
    ensures r.rc.ServerError? ==> fatal
    ensures r.rc.ClientError? ==> (fatal <==> !IsIllegalSlabId(r.line))
    ensures !r.rc.Item? && !r.rc.End? && !r.rc.ClientError? ==> fatal
  {
    !r.rc.Item? && !r.rc.End? && !(r.rc.ClientError? && IsIllegalSlabId(r.line))
  }

  function Log(st: DumpState, e: Event): DumpState {
    st.(trace := st.trace + [e])
  }

  /** `memcached_set_error(*instance, rc)`. */
  function SetInstanceError(c: Config, st: DumpState, s: nat, rc: ReturnCode): DumpState {
    var errors := if s < |st.instanceErrors| then st.instanceErrors[s := Some(rc)] else st.instanceErrors;
    st.(instanceErrors := errors, rootError := if c.instanceErrorReachesRoot then Some(rc) else st.rootError)
  }

  /** `memcached_error_free(*instance)` then `memcached_error_free(*memc)`. */
  function ClearErrors(st: DumpState, s: nat): DumpState {
    var errors := if s < |st.instanceErrors| then st.instanceErrors[s := None] else st.instanceErrors;
    st.(instanceErrors := errors, rootError := None)
  }

  // ---------------------------------------------------------------------------
  // Send pass

  /** Sends the slab-`x` command to servers `k..`, skipping those the version rule excludes. */
  function SendFrom(c: Config, net: Network, x: nat, cmd: seq<char>, k: nat, st: DumpState): (r: Step)
    ensures r.st.rootError == st.rootError && r.st.instanceErrors == st.instanceErrors
    ensures st.trace <= r.st.trace
    ensures r.Stopped? ==> IsFailed(r.rc)
    decreases |c.servers| - k
  {
    if k >= |c.servers| then Going(st)
    else if !ReceivesSlab(c.servers[k], x) then SendFrom(c, net, x, cmd, k + 1, st)
    else
      var st' := Log(st, Sent(x, k, cmd));
      var rc := net.vdo(x, k);
      if IsFailed(rc) then Stopped(st', rc) else SendFrom(c, net, x, cmd, k + 1, st')
  }

  /** The sends of slab `x` to servers `lo..hi-1`, in server order. */
  function Sends(servers: seq<Version>, x: nat, cmd: seq<char>, lo: nat, hi: nat): seq<Event>
    requires lo <= hi <= |servers|
    decreases hi - lo
  {
    if lo == hi then []
    else (if ReceivesSlab(servers[lo], x) then [Sent(x, lo, cmd)] else []) + Sends(servers, x, cmd, lo + 1, hi)
  }

  /** The sends of one slab name each eligible server once, in server order, with the slab's command. */
  lemma SendsMembers(servers: seq<Version>, x: nat, cmd: seq<char>, lo: nat, hi: nat)
    requires lo <= hi <= |servers|
    ensures var r := Sends(servers, x, cmd, lo, hi);
            && (forall k :: 0 <= k < |r| ==>
                  && r[k].Sent? && r[k].slab == x && r[k].command == cmd
                  && lo <= r[k].server < hi && ReceivesSlab(servers[r[k].server], x))
            && (forall s :: lo <= s < hi && ReceivesSlab(servers[s], x) ==> Sent(x, s, cmd) in r)
            && (forall i, j :: 0 <= i < j < |r| ==> r[i].server < r[j].server)
  {
    SendsElements(servers, x, cmd, lo, hi);
    SendsCover(servers, x, cmd, lo, hi);
    SendsIncreasing(servers, x, cmd, lo, hi);
  }

  lemma {:induction false} SendsElements(servers: seq<Version>, x: nat, cmd: seq<char>, lo: nat, hi: nat)
    requires lo <= hi <= |servers|
    ensures forall k :: 0 <= k < |Sends(servers, x, cmd, lo, hi)| ==>
              var e := Sends(servers, x, cmd, lo, hi)[k];
              && e.Sent? && e.slab == x && e.command == cmd
              && lo <= e.server < hi && ReceivesSlab(servers[e.server], x)
    decreases hi - lo
  {
    if lo < hi {
      SendsElements(servers, x, cmd, lo + 1, hi);
      var head: seq<Event> := if ReceivesSlab(servers[lo], x) then [Sent(x, lo, cmd)] else [];
      var tail := Sends(servers, x, cmd, lo + 1, hi);
      var r := head + tail;
      forall k | 0 <= k < |r|
        ensures r[k].Sent? && r[k].slab == x && r[k].command == cmd
        ensures lo <= r[k].server < hi && ReceivesSlab(servers[r[k].server], x)
      {
        if k >= |head| {
          assert r[k] == tail[k - |head|];
        } else {
          assert head == [Sent(x, lo, cmd)] && r[k] == head[k];
        }
      }
    }
  }

  lemma {:induction false} SendsCover(servers: seq<Version>, x: nat, cmd: seq<char>, lo: nat, hi: nat)
    requires lo <= hi <= |servers|
    ensures forall s :: lo <= s < hi && ReceivesSlab(servers[s], x) ==> Sent(x, s, cmd) in Sends(servers, x, cmd, lo, hi)
    decreases hi - lo
  {
    if lo < hi {
      SendsCover(servers, x, cmd, lo + 1, hi);
      var head: seq<Event> := if ReceivesSlab(servers[lo], x) then [Sent(x, lo, cmd)] else [];
      var tail := Sends(servers, x, cmd, lo + 1, hi);
      var r := head + tail;
      forall s | lo <= s < hi && ReceivesSlab(servers[s], x)
        ensures Sent(x, s, cmd) in r
      {
        if s > lo {
          assert Sent(x, s, cmd) in tail;
        } else {
          assert r[0] == Sent(x, s, cmd);
        }
      }
    }
  }

  lemma {:induction false} SendsIncreasing(servers: seq<Version>, x: nat, cmd: seq<char>, lo: nat, hi: nat)
    requires lo <= hi <= |servers|
    ensures forall i, j :: 0 <= i < j < |Sends(servers, x, cmd, lo, hi)| ==>
              Sends(servers, x, cmd, lo, hi)[i].server < Sends(servers, x, cmd, lo, hi)[j].server
    decreases hi - lo
  {
    if lo < hi {
      SendsIncreasing(servers, x, cmd, lo + 1, hi);
      SendsElements(servers, x, cmd, lo + 1, hi);
      var head: seq<Event> := if ReceivesSlab(servers[lo], x) then [Sent(x, lo, cmd)] else [];
      var tail := Sends(servers, x, cmd, lo + 1, hi);
      var r := head + tail;
      forall i, j | 0 <= i < j < |r|
        ensures r[i].server < r[j].server
      {
        assert r[j] == tail[j - |head|];
        if i >= |head| {
          assert r[i] == tail[i - |head|];
        } else {
          assert head == [Sent(x, lo, cmd)] && r[i] == head[i];
        }
      }
    }
  }

  /** The first server from `k` on that is sent slab `x` and whose send fails. */
  function FirstFailedSend(c: Config, net: Network, x: nat, k: nat): (f: nat)
    requires k <= |c.servers|
    ensures k <= f <= |c.servers|
    ensures forall s :: k <= s < f && ReceivesSlab(c.servers[s], x) ==> !IsFailed(net.vdo(x, s))
    ensures f < |c.servers| ==> ReceivesSlab(c.servers[f], x) && IsFailed(net.vdo(x, f))
    decreases |c.servers| - k
  {
    if k == |c.servers| then k
    else if ReceivesSlab(c.servers[k], x) && IsFailed(net.vdo(x, k)) then k
    else FirstFailedSend(c, net, x, k + 1)
  }

  /**
   * The send pass: every eligible server is sent the command in order, and
   * the first failing send ends the dump with its code.
   */
  lemma SendFromShape(c: Config, net: Network, x: nat, cmd: seq<char>, k: nat, st: DumpState)
    requires k <= |c.servers|
    ensures var r := SendFrom(c, net, x, cmd, k, st);
            var f := FirstFailedSend(c, net, x, k);
            && (r.Stopped? <==> f < |c.servers|)
            && (r.Stopped? ==> r.rc == net.vdo(x, f) && r.st.trace == st.trace + Sends(c.servers, x, cmd, k, f + 1))
            && (r.Going? ==> r.st.trace == st.trace + Sends(c.servers, x, cmd, k, |c.servers|))
  {
    SendFromOutcome(c, net, x, cmd, k, st);
    SendFromTrace(c, net, x, cmd, k, st);
  }

  /** The send pass stops exactly at the first eligible server whose send fails, with that send's code. */
  lemma {:induction false} SendFromOutcome(c: Config, net: Network, x: nat, cmd: seq<char>, k: nat, st: DumpState)
    requires k <= |c.servers|
    ensures var r := SendFrom(c, net, x, cmd, k, st);
            var f := FirstFailedSend(c, net, x, k);
            && (r.Stopped? <==> f < |c.servers|)
            && (r.Stopped? ==> r.rc == net.vdo(x, f))
    decreases |c.servers| - k
  {
    if k < |c.servers| {
      if !ReceivesSlab(c.servers[k], x) {
        assert SendFrom(c, net, x, cmd, k, st) == SendFrom(c, net, x, cmd, k + 1, st);
        assert FirstFailedSend(c, net, x, k) == FirstFailedSend(c, net, x, k + 1);
        SendFromOutcome(c, net, x, cmd, k + 1, st);
      } else if !IsFailed(net.vdo(x, k)) {
        var e := Sent(x, k, cmd);
        assert SendFrom(c, net, x, cmd, k, st) == SendFrom(c, net, x, cmd, k + 1, Log(st, e));
        assert FirstFailedSend(c, net, x, k) == FirstFailedSend(c, net, x, k + 1);
        SendFromOutcome(c, net, x, cmd, k + 1, Log(st, e));
      } else {
        assert SendFrom(c, net, x, cmd, k, st) == Stopped(Log(st, Sent(x, k, cmd)), net.vdo(x, k));
      }
    }
  }

  /** The send pass logs the sends to servers `k` up to and including the first failing one. */
  lemma {:induction false} SendFromTrace(c: Config, net: Network, x: nat, cmd: seq<char>, k: nat, st: DumpState)
    requires k <= |c.servers|
    ensures SendFrom(c, net, x, cmd, k, st).st.trace == st.trace + Sends(c.servers, x, cmd, k, SendEnd(c, net, x, k))
    decreases |c.servers| - k
  {
    var hi := SendEnd(c, net, x, k);
    var r := SendFrom(c, net, x, cmd, k, st);
    if k < |c.servers| {
      SendsStep(c.servers, x, cmd, k, hi);
      if !ReceivesSlab(c.servers[k], x) {
        assert r == SendFrom(c, net, x, cmd, k + 1, st);
        assert hi == SendEnd(c, net, x, k + 1);
        SendFromTrace(c, net, x, cmd, k + 1, st);
        assert Sends(c.servers, x, cmd, k, hi) == Sends(c.servers, x, cmd, k + 1, hi);
      } else if !IsFailed(net.vdo(x, k)) {
        var e := Sent(x, k, cmd);
        assert r == SendFrom(c, net, x, cmd, k + 1, Log(st, e));
        assert hi == SendEnd(c, net, x, k + 1);
        SendFromTrace(c, net, x, cmd, k + 1, Log(st, e));
        AppendAssoc(st.trace, [e], Sends(c.servers, x, cmd, k + 1, hi));
        assert Sends(c.servers, x, cmd, k, hi) == [e] + Sends(c.servers, x, cmd, k + 1, hi);
      } else {
        assert r == Stopped(Log(st, Sent(x, k, cmd)), net.vdo(x, k));
        assert hi == k + 1;
        assert Sends(c.servers, x, cmd, k + 1, k + 1) == [];
        assert Sends(c.servers, x, cmd, k, hi) == [Sent(x, k, cmd)];
      }
    } else {
      assert r == Going(st);
      assert Sends(c.servers, x, cmd, k, k) == [];
    }
  }

  /** Where the send pass from server `k` ends: just past the first failing send, or at the last server. */
  function SendEnd(c: Config, net: Network, x: nat, k: nat): (hi: nat)
    requires k <= |c.servers|
    ensures k <= hi <= |c.servers|
  {
    var f := FirstFailedSend(c, net, x, k);
    if f < |c.servers| then f + 1 else |c.servers|
  }

  /** One step of the send run: server `lo`'s send, if it is eligible, then the rest. */
  lemma SendsStep(servers: seq<Version>, x: nat, cmd: seq<char>, lo: nat, hi: nat)
    requires lo < hi <= |servers|
    ensures Sends(servers, x, cmd, lo, hi)
            == if ReceivesSlab(servers[lo], x) then [Sent(x, lo, cmd)] + Sends(servers, x, cmd, lo + 1, hi)
               else Sends(servers, x, cmd, lo + 1, hi)
  {
    var tail := Sends(servers, x, cmd, lo + 1, hi);
    assert [] + tail == tail;
  }

  // ---------------------------------------------------------------------------
  // Callback pipeline

  /** Runs callbacks `j..` in order on one item; the first non-success code is recorded on the instance and ends the item. */
  function RunCallbacks(c: Config, cbs: seq<DumpFn>, x: nat, s: nat, args: DumpArgs, j: nat, st: DumpState): (r: DumpState)
    ensures OnlyRecordsFailure(c, st, r, s)
    decreases |cbs| - j
  {
    if j >= |cbs| then st
    else
      var st' := Log(st, Called(x, s, j, args));
      var rc := cbs[j](args);
      if rc != Success then SetInstanceError(c, st', s, rc) else RunCallbacks(c, cbs, x, s, args, j + 1, st')
  }

  /**
   * `after` differs from `before` in the error state at most by a non-success
   * code recorded on instance `s` (and on the handle, when instance errors
   * reach it); every other instance keeps its error.
   */
  ghost predicate OnlyRecordsFailure(c: Config, before: DumpState, after: DumpState, s: nat) {
    && |after.instanceErrors| == |before.instanceErrors|
    && (forall k :: 0 <= k < |before.instanceErrors| && k != s ==> after.instanceErrors[k] == before.instanceErrors[k])
    && (s < |before.instanceErrors| && after.instanceErrors[s] != before.instanceErrors[s] ==>
          after.instanceErrors[s].Some? && after.instanceErrors[s].value != Success)
    && (after.rootError == before.rootError || (c.instanceErrorReachesRoot && after.rootError.Some? && after.rootError.value != Success))
  }

  /** The invocations of callbacks `lo..hi-1` on one item. */
  function Calls(x: nat, s: nat, args: DumpArgs, lo: nat, hi: nat): seq<Event>
    requires lo <= hi
  {
    seq(hi - lo, k requires 0 <= k < hi - lo => Called(x, s, lo + k, args))
  }

  /** The first callback from `j` on that does not return success for `args`. */
  function FirstFailure(cbs: seq<DumpFn>, args: DumpArgs, j: nat): (f: nat)
    requires j <= |cbs|
    ensures j <= f <= |cbs|
    ensures forall i :: j <= i < f ==> cbs[i](args) == Success
    ensures f < |cbs| ==> cbs[f](args) != Success
    decreases |cbs| - j
  {
    if j == |cbs| then j else if cbs[j](args) != Success then j else FirstFailure(cbs, args, j + 1)
  }

  /**
   * Callbacks run in array order up to and including the first failure, whose
   * code becomes the instance's error; when all succeed, each runs exactly
   * once and no error state changes.
   */
  lemma RunCallbacksShape(c: Config, cbs: seq<DumpFn>, x: nat, s: nat, args: DumpArgs, j: nat, st: DumpState)
    requires j <= |cbs|
    ensures var r := RunCallbacks(c, cbs, x, s, args, j, st);
            var f := FirstFailure(cbs, args, j);
            var stop := if f < |cbs| then f + 1 else |cbs|;
            && r.trace == st.trace + Calls(x, s, args, j, stop)
            && (f < |cbs| ==> r == SetInstanceError(c, st.(trace := r.trace), s, cbs[f](args)))
            && (f < |cbs| && s < |st.instanceErrors| ==> r.instanceErrors == st.instanceErrors[s := Some(cbs[f](args))])
            && |r.instanceErrors| == |st.instanceErrors|
            && (f == |cbs| ==> r == st.(trace := r.trace))
  {
    RunCallbacksTrace(c, cbs, x, s, args, j, st);
    RunCallbacksResult(c, cbs, x, s, args, j, st);
  }

  /** The callbacks invoked on one item are those from `j` up to and including the first failure. */
  lemma {:induction false} RunCallbacksTrace(c: Config, cbs: seq<DumpFn>, x: nat, s: nat, args: DumpArgs, j: nat, st: DumpState)
    requires j <= |cbs|
    ensures RunCallbacks(c, cbs, x, s, args, j, st).trace == st.trace + Calls(x, s, args, j, CallEnd(cbs, args, j))
    decreases |cbs| - j
  {
    var stop := CallEnd(cbs, args, j);
    var r := RunCallbacks(c, cbs, x, s, args, j, st);
    if j < |cbs| {
      var st' := Log(st, Called(x, s, j, args));
      if cbs[j](args) == Success {
        assert r == RunCallbacks(c, cbs, x, s, args, j + 1, st');
        assert stop == CallEnd(cbs, args, j + 1);
        RunCallbacksTrace(c, cbs, x, s, args, j + 1, st');
        assert Calls(x, s, args, j, stop) == [Called(x, s, j, args)] + Calls(x, s, args, j + 1, stop);
      } else {
        assert r == SetInstanceError(c, st', s, cbs[j](args));
        assert stop == j + 1;
        assert Calls(x, s, args, j, j + 1) == [Called(x, s, j, args)];
      }
    } else {
      assert r == st;
      assert Calls(x, s, args, j, j) == [];
    }
  }

  /** Where the callbacks from `j` stop: just past the first failure, or after the last one. */
  function CallEnd(cbs: seq<DumpFn>, args: DumpArgs, j: nat): (stop: nat)
    requires j <= |cbs|
    ensures j <= stop <= |cbs|
  {
    var f := FirstFailure(cbs, args, j);
    if f < |cbs| then f + 1 else |cbs|
  }

  /** Apart from the trace, the callbacks leave the state as it was, or record the first failure's code. */
  lemma {:induction false} RunCallbacksResult(c: Config, cbs: seq<DumpFn>, x: nat, s: nat, args: DumpArgs, j: nat, st: DumpState)
    requires j <= |cbs|
    ensures var r := RunCallbacks(c, cbs, x, s, args, j, st);
            var f := FirstFailure(cbs, args, j);
            && (f < |cbs| ==> r == SetInstanceError(c, st.(trace := r.trace), s, cbs[f](args)))
            && (f == |cbs| ==> r == st.(trace := r.trace))
    decreases |cbs| - j
  {
    if j < |cbs| {
      var st' := Log(st, Called(x, s, j, args));
      if cbs[j](args) == Success {
        assert RunCallbacks(c, cbs, x, s, args, j, st) == RunCallbacks(c, cbs, x, s, args, j + 1, st');
        assert FirstFailure(cbs, args, j) == FirstFailure(cbs, args, j + 1);
        RunCallbacksResult(c, cbs, x, s, args, j + 1, st');
      } else {
        assert RunCallbacks(c, cbs, x, s, args, j, st) == SetInstanceError(c, st', s, cbs[j](args));
      }
    }
  }

  // ---------------------------------------------------------------------------
  // Response classification and collection

  /** The callback arguments an ITEM line yields: its key, the key's length and the expiry. */
  function ItemArgs(line: seq<char>): (a: DumpArgs)
    ensures a.keyLength == |a.key| && forall i :: 0 <= i < |a.key| ==> IsGraph(a.key[i])
    ensures |line| >= ItemPrefixLength ==>
              var e := ItemPrefixLength + a.keyLength;
              && e <= |line|
              && line[ItemPrefixLength..e] == a.key
              && (e == |line| || !IsGraph(line[e]))
              && ExpireField(SuffixAfter(line, e), a.expire)
    ensures |line| < ItemPrefixLength ==> a == DumpArgs([], 0, 0)
  {
    var item := ParseItem(line);
    DumpArgs(item.key, |item.key|, item.expire)
  }

  /** The line `ITEM foo [12 b; 34 s;]` gives the callbacks key "foo", length 3 and expiry 34. */
  lemma ItemArgsExample()
    ensures ItemArgs("ITEM foo [12 b; 34 s;]") == DumpArgs("foo", 3, 34)
  {
    ItemExample();
  }

  /** Drains one response: logs it, then acts on its code. */
  function HandleResponse(c: Config, cbs: seq<DumpFn>, x: nat, r: Response, st: DumpState): (step: Step)
    ensures step.Stopped? <==> IsFatal(r)
    ensures |step.st.instanceErrors| == |st.instanceErrors|
    ensures step.Stopped? ==> step.rc == r.rc && step.st == Log(st, Received(x, r.server, r.rc, r.line))
    ensures r.rc.End? ==> step == Going(Log(st, Received(x, r.server, r.rc, r.line)))
    ensures r.rc.ClientError? && IsIllegalSlabId(r.line) ==>
              && step == Going(ClearErrors(Log(st, Received(x, r.server, r.rc, r.line)), r.server))
              && step.st.rootError.None?
              && (r.server < |st.instanceErrors| ==> step.st.instanceErrors == st.instanceErrors[r.server := None])
  {
    var st' := Log(st, Received(x, r.server, r.rc, r.line));
    if r.rc == Item then Going(RunCallbacks(c, cbs, x, r.server, ItemArgs(r.line), 0, st'))
    else if r.rc == End then Going(st')
    else if r.rc == ServerError then Stopped(st', r.rc)
    else if r.rc == ClientError then
      if IsIllegalSlabId(r.line) then Going(ClearErrors(st', r.server)) else Stopped(st', r.rc)
    else Stopped(st', r.rc)
  }

  /**
   * An ITEM response never ends the dump: it is logged, then the callbacks
   * run on its key and expiry exactly as RunCallbacksShape describes.
   */
  lemma ItemResponse(c: Config, cbs: seq<DumpFn>, x: nat, r: Response, st: DumpState)
    requires r.rc.Item?
    ensures var step := HandleResponse(c, cbs, x, r, st);
            var args := ItemArgs(r.line);
            var f := FirstFailure(cbs, args, 0);
            var stop := if f < |cbs| then f + 1 else |cbs|;
            && step.Going?
            && step.st.trace == st.trace + [Received(x, r.server, r.rc, r.line)] + Calls(x, r.server, args, 0, stop)
            && (f == |cbs| ==> step.st.rootError == st.rootError && step.st.instanceErrors == st.instanceErrors)
            && (f < |cbs| && r.server < |st.instanceErrors| ==> step.st.instanceErrors == st.instanceErrors[r.server := Some(cbs[f](args))])
            && |step.st.instanceErrors| == |st.instanceErrors|
  {
    var args := ItemArgs(r.line);
    var st' := Log(st, Received(x, r.server, r.rc, r.line));
    assert HandleResponse(c, cbs, x, r, st) == Going(RunCallbacks(c, cbs, x, r.server, args, 0, st'));
    RunCallbacksShape(c, cbs, x, r.server, args, 0, st');
  }

  /** Drains responses `i..` of a slab pass until one is fatal. */
  function CollectFrom(c: Config, cbs: seq<DumpFn>, x: nat, rs: seq<Response>, i: nat, st: DumpState): (r: Step)
    ensures |r.st.instanceErrors| == |st.instanceErrors|
    ensures r.Stopped? ==> !r.rc.Item? && !r.rc.End?
    decreases |rs| - i
  {
    if i >= |rs| then Going(st)
    else match HandleResponse(c, cbs, x, rs[i], st)
      case Stopped(st', rc) => Stopped(st', rc)
      case Going(st') => CollectFrom(c, cbs, x, rs, i + 1, st')
  }

  /** The first fatal response from `i` on. */
  function FirstFatal(rs: seq<Response>, i: nat): (f: nat)
    requires i <= |rs|
    ensures i <= f <= |rs|
    ensures forall k :: i <= k < f ==> !IsFatal(rs[k])
    ensures f < |rs| ==> IsFatal(rs[f])
    decreases |rs| - i
  {
    if i == |rs| then i else if IsFatal(rs[i]) then i else FirstFatal(rs, i + 1)
  }

  /** The events a step appended to the trace it started from. */
  function Added(before: seq<Event>, after: seq<Event>): seq<Event> {
    if |before| <= |after| then after[|before|..] else []
  }

  ghost predicate AtSlab(t: seq<Event>, x: nat) {
    forall k :: 0 <= k < |t| ==> t[k].slab == x
  }

  ghost predicate NoSends(t: seq<Event>) {
    forall k :: 0 <= k < |t| ==> !t[k].Sent?
  }

  /** `after` extends `before` with events of slab `x` that are not sends. */
  ghost predicate DrainedAt(before: seq<Event>, after: seq<Event>, x: nat) {
    before <= after && AtSlab(Added(before, after), x) && NoSends(Added(before, after))
  }

  lemma DrainedAtTrans(a: seq<Event>, b: seq<Event>, c: seq<Event>, x: nat)
    requires DrainedAt(a, b, x) && DrainedAt(b, c, x)
    ensures DrainedAt(a, c, x)
  {
    AddedConcat(a, b, c);
    var t := Added(a, b) + Added(b, c);
    forall k | 0 <= k < |t|
      ensures t[k].slab == x && !t[k].Sent?
    {
      if k >= |Added(a, b)| {
        assert t[k] == Added(b, c)[k - |Added(a, b)|];
      }
    }
  }

  /** The events one response appends: its receipt, then for an ITEM the callbacks it ran. */
  function ResponseEvents(cbs: seq<DumpFn>, x: nat, r: Response): seq<Event> {
    var calls := if r.rc.Item? then
                   var args := ItemArgs(r.line);
                   var f := FirstFailure(cbs, args, 0);
                   Calls(x, r.server, args, 0, if f < |cbs| then f + 1 else |cbs|)
                 else [];
    [Received(x, r.server, r.rc, r.line)] + calls
  }

  /** The events drained responses `i..j-1` append, one response after another. */
  function DrainEvents(cbs: seq<DumpFn>, x: nat, rs: seq<Response>, i: nat, j: nat): seq<Event>
    requires i <= j <= |rs|
    decreases j - i
  {
    if i == j then [] else ResponseEvents(cbs, x, rs[i]) + DrainEvents(cbs, x, rs, i + 1, j)
  }

  lemma HandleResponseTrace(c: Config, cbs: seq<DumpFn>, x: nat, r: Response, st: DumpState)
    ensures var step := HandleResponse(c, cbs, x, r, st);
            && step.st.trace == st.trace + ResponseEvents(cbs, x, r)
            && |st.instanceErrors| == |step.st.instanceErrors|
  {
    if r.rc.Item? {
      ItemResponseTrace(c, cbs, x, r, st);
    } else {
      OtherResponseTrace(c, cbs, x, r, st);
    }
  }

  lemma ItemResponseTrace(c: Config, cbs: seq<DumpFn>, x: nat, r: Response, st: DumpState)
    requires r.rc.Item?
    ensures var step := HandleResponse(c, cbs, x, r, st);
            && step.st.trace == st.trace + ResponseEvents(cbs, x, r)
            && |st.instanceErrors| == |step.st.instanceErrors|
  {
    var e := Received(x, r.server, r.rc, r.line);
    var args := ItemArgs(r.line);
    var f := FirstFailure(cbs, args, 0);
    var calls := Calls(x, r.server, args, 0, if f < |cbs| then f + 1 else |cbs|);
    ItemResponse(c, cbs, x, r, st);
    assert ResponseEvents(cbs, x, r) == [e] + calls;
    AppendAssoc(st.trace, [e], calls);
  }

  lemma OtherResponseTrace(c: Config, cbs: seq<DumpFn>, x: nat, r: Response, st: DumpState)
    requires !r.rc.Item?
    ensures var step := HandleResponse(c, cbs, x, r, st);
            && step.st.trace == st.trace + ResponseEvents(cbs, x, r)
            && |st.instanceErrors| == |step.st.instanceErrors|
  {
    var e := Received(x, r.server, r.rc, r.line);
    var step := HandleResponse(c, cbs, x, r, st);
    var st' := Log(st, e);
    if IsFatal(r) || r.rc.End? {
      assert step.st == st';
    } else {
      assert step.st == ClearErrors(st', r.server);
    }
    assert ResponseEvents(cbs, x, r) == [e];
  }

  lemma ResponseEventsAtSlab(cbs: seq<DumpFn>, x: nat, r: Response)
    ensures AtSlab(ResponseEvents(cbs, x, r), x) && NoSends(ResponseEvents(cbs, x, r))
  {
    var t := ResponseEvents(cbs, x, r);
    forall k | 0 <= k < |t|
      ensures t[k].slab == x && !t[k].Sent?
    {
      if k > 0 {
        assert t[k] == t[1..][k - 1];
      }
    }
  }

  lemma HandleResponseGrows(c: Config, cbs: seq<DumpFn>, x: nat, r: Response, st: DumpState)
    ensures |HandleResponse(c, cbs, x, r, st).st.trace| > |st.trace|
  {
    HandleResponseTrace(c, cbs, x, r, st);
  }

  /** One response appends its own receipt and, for an ITEM, the callback invocations it caused. */
  lemma HandleResponseShape(c: Config, cbs: seq<DumpFn>, x: nat, r: Response, st: DumpState)
    ensures var step := HandleResponse(c, cbs, x, r, st);
            && DrainedAt(st.trace, step.st.trace, x)
            && |st.instanceErrors| == |step.st.instanceErrors|
  {
    var step := HandleResponse(c, cbs, x, r, st);
    HandleResponseTrace(c, cbs, x, r, st);
    ResponseEventsAtSlab(cbs, x, r);
    assert Added(st.trace, step.st.trace) == ResponseEvents(cbs, x, r);
  }

  /** The collection pass appends only responses and callback invocations of slab `x`. */
  lemma {:induction false} CollectFromDrained(c: Config, cbs: seq<DumpFn>, x: nat, rs: seq<Response>, i: nat, st: DumpState)
    requires i <= |rs|
    ensures var r := CollectFrom(c, cbs, x, rs, i, st);
            DrainedAt(st.trace, r.st.trace, x) && |r.st.instanceErrors| == |st.instanceErrors|
    decreases |rs| - i
  {
    if i < |rs| {
      var step := HandleResponse(c, cbs, x, rs[i], st);
      HandleResponseShape(c, cbs, x, rs[i], st);
      if step.Going? {
        CollectFromDrained(c, cbs, x, rs, i + 1, step.st);
        DrainedAtTrans(st.trace, step.st.trace, CollectFrom(c, cbs, x, rs, i + 1, step.st).st.trace, x);
      }
    } else {
      assert Added(st.trace, st.trace) == [];
    }
  }

  /**
   * The collection pass ends the dump exactly when some response is fatal,
   * with that response's code, the fatal response being the last thing logged.
   */
  lemma {:induction false} CollectFromStop(c: Config, cbs: seq<DumpFn>, x: nat, rs: seq<Response>, i: nat, st: DumpState)
    requires i <= |rs|
    ensures var r := CollectFrom(c, cbs, x, rs, i, st);
            var f := FirstFatal(rs, i);
            && (r.Stopped? <==> f < |rs|)
            && (r.Stopped? ==> r.rc == rs[f].rc && EndsWith(st.trace, r.st.trace, Received(x, rs[f].server, rs[f].rc, rs[f].line)))
    decreases |rs| - i
  {
    if i < |rs| {
      var step := HandleResponse(c, cbs, x, rs[i], st);
      if step.Going? {
        assert CollectFrom(c, cbs, x, rs, i, st) == CollectFrom(c, cbs, x, rs, i + 1, step.st);
        assert FirstFatal(rs, i) == FirstFatal(rs, i + 1);
        CollectFromStop(c, cbs, x, rs, i + 1, step.st);
        HandleResponseGrows(c, cbs, x, rs[i], st);
        var r := CollectFrom(c, cbs, x, rs, i + 1, step.st);
        if r.Stopped? {
          var f := FirstFatal(rs, i);
          EndsWithShorter(st.trace, step.st.trace, r.st.trace, Received(x, rs[f].server, rs[f].rc, rs[f].line));
        }
      } else {
        LogLast(st, Received(x, rs[i].server, rs[i].rc, rs[i].line));
      }
    }
  }

  /**
   * What the collection pass logs: for each response up to and including the
   * first fatal one (all of them when none is fatal), its receipt followed by
   * the callback invocations it caused, in poll order.
   */
  lemma {:induction false} CollectFromLog(c: Config, cbs: seq<DumpFn>, x: nat, rs: seq<Response>, i: nat, st: DumpState)
    requires i <= |rs|
    ensures CollectFrom(c, cbs, x, rs, i, st).st.trace == st.trace + DrainEvents(cbs, x, rs, i, DrainEnd(rs, i))
    decreases |rs| - i
  {
    var hi := DrainEnd(rs, i);
    var r := CollectFrom(c, cbs, x, rs, i, st);
    if i < |rs| {
      var step := HandleResponse(c, cbs, x, rs[i], st);
      HandleResponseTrace(c, cbs, x, rs[i], st);
      assert DrainEvents(cbs, x, rs, i, hi) == ResponseEvents(cbs, x, rs[i]) + DrainEvents(cbs, x, rs, i + 1, hi);
      if step.Going? {
        assert r == CollectFrom(c, cbs, x, rs, i + 1, step.st);
        assert hi == DrainEnd(rs, i + 1);
        CollectFromLog(c, cbs, x, rs, i + 1, step.st);
        AppendAssoc(st.trace, ResponseEvents(cbs, x, rs[i]), DrainEvents(cbs, x, rs, i + 1, hi));
      } else {
        assert r == step;
        assert hi == i + 1;
        assert DrainEvents(cbs, x, rs, i + 1, hi) == [];
      }
    } else {
      assert r == Going(st);
    }
  }

  /** Where draining from `i` stops: just past the first fatal response, or after the last one. */
  function DrainEnd(rs: seq<Response>, i: nat): (hi: nat)
    requires i <= |rs|
    ensures i <= hi <= |rs|
  {
    var f := FirstFatal(rs, i);
    if f < |rs| then f + 1 else |rs|
  }

  /** `after` is longer than `before` and its last event is `e`. */
  ghost predicate EndsWith(before: seq<Event>, after: seq<Event>, e: Event) {
    |after| > |before| && after[|after| - 1] == e
  }

  lemma EndsWithShorter(a: seq<Event>, b: seq<Event>, t: seq<Event>, e: Event)
    requires |b| > |a| && EndsWith(b, t, e)
    ensures EndsWith(a, t, e)
  {
  }

  lemma LogLast(st: DumpState, e: Event)
    ensures EndsWith(st.trace, Log(st, e).trace, e)
  {
  }

  lemma LastOfAppend(a: seq<Event>, b: seq<Event>)
    requires b != []
    ensures (a + b)[|a + b| - 1] == b[|b| - 1]
  {
  }

  lemma AppendAssoc(a: seq<Event>, b: seq<Event>, c: seq<Event>)
    ensures a + b + c == a + (b + c)
  {
  }

  lemma AddedConcat(a: seq<Event>, b: seq<Event>, c: seq<Event>)
    requires a <= b <= c
    ensures Added(a, c) == Added(a, b) + Added(b, c)
  {
  }

  // ---------------------------------------------------------------------------
  // Slab passes and the whole dump

  /** One slab: format the id, send to every eligible server, then drain responses. */
  function SlabPass(c: Config, net: Network, cbs: seq<DumpFn>, x: nat, st: DumpState): (r: Step)
    ensures |r.st.instanceErrors| == |st.instanceErrors|
    ensures r.Stopped? ==> !r.rc.Item? && !r.rc.End?
  {
    match FormatSlabId(x, c.commandSize)
    case None => Stopped(st.(rootError := Some(MemoryAllocationFailure)), MemoryAllocationFailure)
    case Some(digits) =>
      match SendFrom(c, net, x, CachedumpCommand(digits), 0, st)
      case Stopped(st', rc) => Stopped(st', rc)
      case Going(st') => CollectFrom(c, cbs, x, net.readable(x), 0, st')
  }

  /** Slabs `x..199`, stopping at the first slab pass that ends the dump. */
  function SlabsFrom(c: Config, net: Network, cbs: seq<DumpFn>, x: nat, st: DumpState): (r: Step)
    ensures |r.st.instanceErrors| == |st.instanceErrors|
    ensures r.Stopped? ==> !r.rc.Item? && !r.rc.End?
    decreases SlabClassCount - x
  {
    if x >= SlabClassCount then Going(st)
    else match SlabPass(c, net, cbs, x, st)
      case Stopped(st', rc) => Stopped(st', rc)
      case Going(st') => SlabsFrom(c, net, cbs, x + 1, st')
  }

  /** `memcached_has_current_error(*memc) ? MEMCACHED_SOME_ERRORS : MEMCACHED_SUCCESS`. */
  function Outcome(st: DumpState): (r: ReturnCode)
    ensures r == SomeErrors <==> st.rootError.Some?
    ensures r == Success <==> st.rootError.None?
  {
    if st.rootError.Some? then SomeErrors else Success
  }

  /** `ascii_dump`: the final state and the code returned. */
  function AsciiDumpSpec(c: Config, net: Network, cbs: seq<DumpFn>, st: DumpState): (r: (DumpState, ReturnCode))
    ensures |r.0.instanceErrors| == |st.instanceErrors|
    ensures !r.1.Item? && !r.1.End?
    ensures SlabsFrom(c, net, cbs, 0, st).Going? ==>
              (r.1 == SomeErrors <==> r.0.rootError.Some?) && (r.1 == Success <==> r.0.rootError.None?)
  {
    match SlabsFrom(c, net, cbs, 0, st)
    case Stopped(st', rc) => (st', rc)
    case Going(st') => (st', Outcome(st'))
  }

  /**
   * `memcached_dump`: a failed query initialisation is returned as it is, the
   * binary protocol is refused before anything is sent, and otherwise the
   * ASCII dump runs.
   */
  function MemcachedDumpSpec(c: Config, binary: bool, initRc: ReturnCode, net: Network, cbs: seq<DumpFn>, st: DumpState): (r: (DumpState, ReturnCode))
    ensures IsFailed(initRc) ==> r == (st, initRc)
    ensures !IsFailed(initRc) && binary ==>
              && r.1 == NotSupported && r.0.trace == st.trace && r.0.rootError == Some(NotSupported)
              && r.0.instanceErrors == st.instanceErrors
    ensures !IsFailed(initRc) && !binary ==> r == AsciiDumpSpec(c, net, cbs, st)
  {
    if IsFailed(initRc) then (st, initRc)
    else if binary then (st.(rootError := Some(NotSupported)), NotSupported)
    else AsciiDumpSpec(c, net, cbs, st)
  }

  // ---------------------------------------------------------------------------
  // Properties of the trace

  /**
   * Slab ids never decrease along the trace, and within one slab every send
   * comes before any response is drained.
   */
  ghost predicate Ordered(t: seq<Event>) {
    forall i, j :: 0 <= i < j < |t| ==>
      && t[i].slab <= t[j].slab
      && (t[i].slab == t[j].slab && t[j].Sent? ==> t[i].Sent?)
  }

  /** The sends in `t` are exactly one per slab in `lo..hi-1` and server the version rule admits, with that slab's command. */
  ghost predicate SentExactly(c: Config, t: seq<Event>, lo: nat, hi: nat) {
    && (forall k :: 0 <= k < |t| && t[k].Sent? ==>
          && lo <= t[k].slab < hi && t[k].server < |c.servers|
          && ReceivesSlab(c.servers[t[k].server], t[k].slab) && t[k].command == Command(t[k].slab))
    && (forall y, s :: lo <= y < hi && 0 <= s < |c.servers| && ReceivesSlab(c.servers[s], y) ==> Sent(y, s, Command(y)) in t)
    && (forall i, j :: 0 <= i < j < |t| && t[i].Sent? && t[j].Sent? ==> t[i].slab != t[j].slab || t[i].server != t[j].server)
  }

  /**
   * Why a dump ended early: the buffer was too small for a slab id, or the
   * last thing logged was a failed send or a fatal response, whose code is
   * the one returned.
   */
  ghost predicate StopCause(c: Config, net: Network, added: seq<Event>, after: DumpState, rc: ReturnCode) {
    || (rc == MemoryAllocationFailure && c.commandSize < 4 && after.rootError == Some(MemoryAllocationFailure))
    || StopsOnEvent(net, added, rc)
  }

  /** The last event logged is a failed send or a fatal response, and `rc` is its code. */
  ghost predicate StopsOnEvent(net: Network, added: seq<Event>, rc: ReturnCode) {
    added != [] &&
    match added[|added| - 1]
    case Sent(y, s, _) => rc == net.vdo(y, s) && IsFailed(rc)
    case Received(_, s, code, line) => rc == code && IsFatal(Response(s, code, line))
    case Called(_, _, _, _) => false
  }

  /**
   * What one slab pass does to the trace: it appends events of slab `x` only,
   * its sends before anything else, and keeps one error slot per server; a
   * completed pass sent exactly once to each eligible server, and an aborted
   * one says why it stopped.
   */
  ghost predicate PassEffect(c: Config, net: Network, x: nat, st: DumpState, r: Step) {
    var added := Added(st.trace, r.st.trace);
    && st.trace <= r.st.trace
    && AtSlab(added, x)
    && Ordered(added)
    && |r.st.instanceErrors| == |st.instanceErrors|
    && (r.Going? ==> SentExactly(c, added, x, x + 1))
    && (r.Stopped? ==> StopCause(c, net, added, r.st, r.rc))
  }

  lemma SlabPassShape(c: Config, net: Network, cbs: seq<DumpFn>, x: nat, st: DumpState)
    requires x < SlabClassCount
    ensures PassEffect(c, net, x, st, SlabPass(c, net, cbs, x, st))
  {
    match FormatSlabId(x, c.commandSize)
    case None =>
      SmallBufferOnly(x, c.commandSize);
      assert Added(st.trace, st.trace) == [];
    case Some(digits) =>
      assert CachedumpCommand(digits) == Command(x);
      var sent := SendFrom(c, net, x, Command(x), 0, st);
      SendFromShape(c, net, x, Command(x), 0, st);
      if sent.Stopped? {
        PassStoppedInSend(c, net, x, st);
      } else {
        PassCollect(c, net, cbs, x, st, sent.st);
      }
  }

  /** Only a buffer shorter than four bytes can fail to hold a slab id. */
  lemma SmallBufferOnly(x: nat, size: nat)
    requires x < SlabClassCount
    ensures FormatSlabId(x, size).None? ==> size < 4
  {
    if size >= 4 {
      FormatNeverOverflows(x, size);
    }
  }

  lemma AddedAppend(a: seq<Event>, b: seq<Event>)
    ensures a <= a + b && Added(a, a + b) == b
  {
  }

  /** The sends of one slab form an ordered run of that slab. */
  lemma SendsAtSlab(servers: seq<Version>, x: nat, cmd: seq<char>, lo: nat, hi: nat)
    requires lo <= hi <= |servers|
    ensures var t := Sends(servers, x, cmd, lo, hi);
            && (forall k :: 0 <= k < |t| ==> t[k].Sent? && t[k].slab == x)
            && AtSlab(t, x) && Ordered(t)
  {
    SendsMembers(servers, x, cmd, lo, hi);
  }

  /** Appending one more server to the range appends its send, when it is eligible. */
  lemma {:induction false} SendsLast(servers: seq<Version>, x: nat, cmd: seq<char>, lo: nat, f: nat)
    requires lo <= f < |servers| && ReceivesSlab(servers[f], x)
    ensures Sends(servers, x, cmd, lo, f + 1) == Sends(servers, x, cmd, lo, f) + [Sent(x, f, cmd)]
    decreases f - lo
  {
    if lo < f {
      SendsLast(servers, x, cmd, lo + 1, f);
      var head: seq<Event> := if ReceivesSlab(servers[lo], x) then [Sent(x, lo, cmd)] else [];
      var mid := Sends(servers, x, cmd, lo + 1, f);
      assert Sends(servers, x, cmd, lo, f + 1) == head + (mid + [Sent(x, f, cmd)]);
      assert Sends(servers, x, cmd, lo, f) == head + mid;
    }
  }

  lemma PassStoppedInSend(c: Config, net: Network, x: nat, st: DumpState)
    requires SendFrom(c, net, x, Command(x), 0, st).Stopped?
    requires FirstFailedSend(c, net, x, 0) < |c.servers|
    requires var f := FirstFailedSend(c, net, x, 0);
             var sent := SendFrom(c, net, x, Command(x), 0, st);
             && sent.rc == net.vdo(x, f)
             && sent.st.trace == st.trace + Sends(c.servers, x, Command(x), 0, f + 1)
             && sent.st.instanceErrors == st.instanceErrors
    ensures PassEffect(c, net, x, st, SendFrom(c, net, x, Command(x), 0, st))
  {
    var f := FirstFailedSend(c, net, x, 0);
    var seg := Sends(c.servers, x, Command(x), 0, f + 1);
    AddedAppend(st.trace, seg);
    SendsAtSlab(c.servers, x, Command(x), 0, f + 1);
    SendsLast(c.servers, x, Command(x), 0, f);
    assert seg[|seg| - 1] == Sent(x, f, Command(x));
  }

  lemma PassCollect(c: Config, net: Network, cbs: seq<DumpFn>, x: nat, st: DumpState, sentSt: DumpState)
    requires x < SlabClassCount
    requires sentSt.trace == st.trace + Sends(c.servers, x, Command(x), 0, |c.servers|)
    requires sentSt.instanceErrors == st.instanceErrors
    ensures PassEffect(c, net, x, st, CollectFrom(c, cbs, x, net.readable(x), 0, sentSt))
  {
    var seg := Sends(c.servers, x, Command(x), 0, |c.servers|);
    var rs := net.readable(x);
    var r := CollectFrom(c, cbs, x, rs, 0, sentSt);
    CollectFromDrained(c, cbs, x, rs, 0, sentSt);
    AddedAppend(st.trace, seg);
    AddedConcat(st.trace, sentSt.trace, r.st.trace);
    var rest := Added(sentSt.trace, r.st.trace);
    SendsAtSlab(c.servers, x, Command(x), 0, |c.servers|);
    SendsThenRest(seg, rest, x);
    if r.Going? {
      SendsThenDrainedExactly(c, x, rest);
    } else {
      CollectStopCause(c, net, cbs, x, sentSt, seg);
    }
  }

  /** A collection pass that ends the dump leaves its fatal response as the last event logged. */
  lemma CollectStopCause(c: Config, net: Network, cbs: seq<DumpFn>, x: nat, sentSt: DumpState, seg: seq<Event>)
    requires CollectFrom(c, cbs, x, net.readable(x), 0, sentSt).Stopped?
    ensures var r := CollectFrom(c, cbs, x, net.readable(x), 0, sentSt);
            StopCause(c, net, seg + Added(sentSt.trace, r.st.trace), r.st, r.rc)
  {
    var rs := net.readable(x);
    var r := CollectFrom(c, cbs, x, rs, 0, sentSt);
    CollectFromDrained(c, cbs, x, rs, 0, sentSt);
    CollectFromStop(c, cbs, x, rs, 0, sentSt);
    var f := FirstFatal(rs, 0);
    SuffixLast(sentSt.trace, r.st.trace, seg, Received(x, rs[f].server, rs[f].rc, rs[f].line));
    FatalStopCause(c, net, seg + Added(sentSt.trace, r.st.trace), r.st, r.rc, x, rs[f]);
  }

  lemma SuffixLast(a: seq<Event>, b: seq<Event>, seg: seq<Event>, e: Event)
    requires a <= b && EndsWith(a, b, e)
    ensures EndsWith([], seg + Added(a, b), e)
  {
    var rest := Added(a, b);
    assert rest[|rest| - 1] == b[|b| - 1];
    LastOfAppend(seg, rest);
  }

  lemma FatalStopCause(c: Config, net: Network, added: seq<Event>, after: DumpState, rc: ReturnCode, x: nat, r: Response)
    requires EndsWith([], added, Received(x, r.server, r.rc, r.line))
    requires rc == r.rc && IsFatal(r)
    ensures StopCause(c, net, added, after, rc)
  {
  }

  /** The sends of a completed pass, followed by drained events only, send slab `x` exactly once per eligible server. */
  lemma SendsThenDrainedExactly(c: Config, x: nat, rest: seq<Event>)
    requires NoSends(rest)
    ensures SentExactly(c, Sends(c.servers, x, Command(x), 0, |c.servers|) + rest, x, x + 1)
  {
    var seg := Sends(c.servers, x, Command(x), 0, |c.servers|);
    var t := seg + rest;
    SendsMembers(c.servers, x, Command(x), 0, |c.servers|);
    forall k | |seg| <= k < |t|
      ensures !t[k].Sent?
    {
      assert t[k] == rest[k - |seg|];
    }
    forall k | 0 <= k < |t| && t[k].Sent?
      ensures x <= t[k].slab < x + 1 && t[k].server < |c.servers|
      ensures ReceivesSlab(c.servers[t[k].server], t[k].slab) && t[k].command == Command(t[k].slab)
    {
      assert t[k] == seg[k];
    }
    forall y, s | x <= y < x + 1 && 0 <= s < |c.servers| && ReceivesSlab(c.servers[s], y)
      ensures Sent(y, s, Command(y)) in t
    {
      assert Sent(x, s, Command(x)) in seg;
    }
    forall i, j | 0 <= i < j < |t| && t[i].Sent? && t[j].Sent?
      ensures t[i].slab != t[j].slab || t[i].server != t[j].server
    {
      assert t[i] == seg[i] && t[j] == seg[j];
    }
  }

  /** A run of sends followed by a run of non-sends, all of slab `x`, is ordered. */
  lemma SendsThenRest(seg: seq<Event>, rest: seq<Event>, x: nat)
    requires forall k :: 0 <= k < |seg| ==> seg[k].Sent? && seg[k].slab == x
    requires AtSlab(rest, x) && NoSends(rest)
    ensures AtSlab(seg + rest, x) && Ordered(seg + rest)
  {
    var t := seg + rest;
    forall i, j | 0 <= i < j < |t|
      ensures t[i].slab <= t[j].slab && (t[i].slab == t[j].slab && t[j].Sent? ==> t[i].Sent?)
    {
      if j >= |seg| {
        assert t[j] == rest[j - |seg|];
      }
    }
  }

  /** Prepending the events of a slab to those of later slabs keeps the trace ordered. */
  lemma OrderedPrepend(a: seq<Event>, b: seq<Event>, x: nat)
    requires AtSlab(a, x) && Ordered(a) && Ordered(b)
    requires forall k :: 0 <= k < |b| ==> b[k].slab > x
    ensures Ordered(a + b)
  {
    var t := a + b;
    forall i, j | 0 <= i < j < |t|
      ensures t[i].slab <= t[j].slab && (t[i].slab == t[j].slab && t[j].Sent? ==> t[i].Sent?)
    {
      if i >= |a| {
        assert t[i] == b[i - |a|] && t[j] == b[j - |a|];
      } else if j >= |a| {
        assert t[j] == b[j - |a|];
      }
    }
  }

  lemma SentExactlyConcat(c: Config, a: seq<Event>, b: seq<Event>, x: nat, hi: nat)
    requires x < hi
    requires SentExactly(c, a, x, x + 1) && SentExactly(c, b, x + 1, hi)
    ensures SentExactly(c, a + b, x, hi)
  {
    var t := a + b;
    forall k | 0 <= k < |t| && t[k].Sent?
      ensures x <= t[k].slab < hi && t[k].server < |c.servers|
      ensures ReceivesSlab(c.servers[t[k].server], t[k].slab) && t[k].command == Command(t[k].slab)
    {
      if k >= |a| {
        assert t[k] == b[k - |a|];
      }
    }
    forall y, s | x <= y < hi && 0 <= s < |c.servers| && ReceivesSlab(c.servers[s], y)
      ensures Sent(y, s, Command(y)) in t
    {
      if y == x {
        assert Sent(y, s, Command(y)) in a;
      } else {
        assert Sent(y, s, Command(y)) in b;
      }
    }
    forall i, j | 0 <= i < j < |t| && t[i].Sent? && t[j].Sent?
      ensures t[i].slab != t[j].slab || t[i].server != t[j].server
    {
      if i >= |a| {
        assert t[i] == b[i - |a|] && t[j] == b[j - |a|];
      } else if j >= |a| {
        assert t[j] == b[j - |a|];
        assert t[i].slab == x < t[j].slab;
      }
    }
  }

  /**
   * What slabs `x..199` do to the trace: the added events are ordered and
   * within that range; a completed run sent exactly the eligible commands; an
   * aborted run says why it stopped.
   */
  ghost predicate RunEffect(c: Config, net: Network, x: nat, st: DumpState, r: Step) {
    var added := Added(st.trace, r.st.trace);
    && st.trace <= r.st.trace
    && Ordered(added)
    && (forall k :: 0 <= k < |added| ==> x <= added[k].slab < SlabClassCount)
    && (r.Going? ==> SentExactly(c, added, x, SlabClassCount))
    && (r.Stopped? ==> StopCause(c, net, added, r.st, r.rc))
  }

  lemma {:induction false} SlabsFromShape(c: Config, net: Network, cbs: seq<DumpFn>, x: nat, st: DumpState)
    requires x <= SlabClassCount
    ensures RunEffect(c, net, x, st, SlabsFrom(c, net, cbs, x, st))
    decreases SlabClassCount - x
  {
    if x < SlabClassCount {
      var pass := SlabPass(c, net, cbs, x, st);
      SlabPassShape(c, net, cbs, x, st);
      if pass.Going? {
        SlabsFromShape(c, net, cbs, x + 1, pass.st);
        RunAfterPass(c, net, x, st, pass, SlabsFrom(c, net, cbs, x + 1, pass.st));
      } else {
        RunStopsInPass(c, net, x, st, pass);
      }
    } else {
      assert Added(st.trace, st.trace) == [];
    }
  }

  /** A pass that ends the dump is itself the whole run from its slab on. */
  lemma RunStopsInPass(c: Config, net: Network, x: nat, st: DumpState, pass: Step)
    requires x < SlabClassCount && pass.Stopped? && PassEffect(c, net, x, st, pass)
    ensures RunEffect(c, net, x, st, pass)
  {
  }

  /** A completed pass of slab `x` followed by the run from `x + 1`. */
  lemma RunAfterPass(c: Config, net: Network, x: nat, st: DumpState, pass: Step, r: Step)
    requires x < SlabClassCount && pass.Going?
    requires PassEffect(c, net, x, st, pass) && RunEffect(c, net, x + 1, pass.st, r)
    ensures RunEffect(c, net, x, st, r)
  {
    var a := Added(st.trace, pass.st.trace);
    var b := Added(pass.st.trace, r.st.trace);
    AddedConcat(st.trace, pass.st.trace, r.st.trace);
    OrderedPrepend(a, b, x);
    var t := a + b;
    forall k | 0 <= k < |t|
      ensures x <= t[k].slab < SlabClassCount
    {
      if k >= |a| {
        assert t[k] == b[k - |a|];
      }
    }
    if r.Going? {
      SentExactlyConcat(c, a, b, x, SlabClassCount);
    } else if b != [] {
      assert t[|t| - 1] == b[|b| - 1];
    }
  }

  /**
   * The events a completed pass of slab `x` logs: the command to every
   * eligible server in server order, then each drained response's receipt and
   * callback invocations in poll order.
   */
  function PassEvents(c: Config, net: Network, cbs: seq<DumpFn>, x: nat): seq<Event> {
    Sends(c.servers, x, Command(x), 0, |c.servers|) + DrainEvents(cbs, x, net.readable(x), 0, |net.readable(x)|)
  }

  /** The events of completed passes `x..199`, slab after slab. */
  function DumpEvents(c: Config, net: Network, cbs: seq<DumpFn>, x: nat): seq<Event>
    decreases SlabClassCount - x
  {
    if x >= SlabClassCount then [] else PassEvents(c, net, cbs, x) + DumpEvents(c, net, cbs, x + 1)
  }

  /** A pass that does not end the dump logs exactly its sends and then every response it drained. */
  lemma CompletedPassLog(c: Config, net: Network, cbs: seq<DumpFn>, x: nat, st: DumpState)
    requires SlabPass(c, net, cbs, x, st).Going?
    ensures SlabPass(c, net, cbs, x, st).st.trace == st.trace + PassEvents(c, net, cbs, x)
  {
    var digits := FormatSlabId(x, c.commandSize).value;
    assert CachedumpCommand(digits) == Command(x);
    var sent := SendFrom(c, net, x, Command(x), 0, st);
    SendFromShape(c, net, x, Command(x), 0, st);
    var rs := net.readable(x);
    assert SlabPass(c, net, cbs, x, st) == CollectFrom(c, cbs, x, rs, 0, sent.st);
    CollectFromStop(c, cbs, x, rs, 0, sent.st);
    CollectFromLog(c, cbs, x, rs, 0, sent.st);
    AppendAssoc(st.trace, Sends(c.servers, x, Command(x), 0, |c.servers|), DrainEvents(cbs, x, rs, 0, |rs|));
  }

  lemma {:induction false} CompletedRunLog(c: Config, net: Network, cbs: seq<DumpFn>, x: nat, st: DumpState)
    requires SlabsFrom(c, net, cbs, x, st).Going?
    ensures SlabsFrom(c, net, cbs, x, st).st.trace == st.trace + DumpEvents(c, net, cbs, x)
    decreases SlabClassCount - x
  {
    if x < SlabClassCount {
      var pass := SlabPass(c, net, cbs, x, st);
      assert SlabsFrom(c, net, cbs, x, st) == SlabsFrom(c, net, cbs, x + 1, pass.st);
      CompletedPassLog(c, net, cbs, x, st);
      CompletedRunLog(c, net, cbs, x + 1, pass.st);
      AppendAssoc(st.trace, PassEvents(c, net, cbs, x), DumpEvents(c, net, cbs, x + 1));
    }
  }

  // ---------------------------------------------------------------------------
  // Theorems about the dump

  /**
   * Slab order: the events of one call of the dump are ordered by slab id,
   * all slab ids lie in 0..199, and within a slab all sends precede all reads.
   */
  lemma DumpIsOrderedBySlab(c: Config, net: Network, cbs: seq<DumpFn>, st: DumpState)
    ensures var (after, _) := AsciiDumpSpec(c, net, cbs, st);
            var added := Added(st.trace, after.trace);
            && st.trace <= after.trace
            && Ordered(added)
            && forall k :: 0 <= k < |added| ==> added[k].slab < SlabClassCount
  {
    SlabsFromShape(c, net, cbs, 0, st);
  }

  /**
   * Send eligibility: a dump that runs through all 200 slabs sends server `s`
   * the command `stats cachedump <x> 0\r\n` for slab `x` exactly once when the
   * version rule admits it and never otherwise, and it returns
   * MEMCACHED_SOME_ERRORS exactly when the handle still holds an error.
   */
  lemma CompletedDump(c: Config, net: Network, cbs: seq<DumpFn>, st: DumpState)
    requires SlabsFrom(c, net, cbs, 0, st).Going?
    ensures var (after, rc) := AsciiDumpSpec(c, net, cbs, st);
            && SentExactly(c, Added(st.trace, after.trace), 0, SlabClassCount)
            && (rc == SomeErrors <==> after.rootError.Some?)
            && (rc == Success <==> after.rootError.None?)
  {
    SlabsFromShape(c, net, cbs, 0, st);
  }

  /**
   * The log of a completed dump: slab after slab, the command to each
   * eligible server, then every response the poll yielded with the callback
   * invocations each ITEM caused, up to and including the first failing one.
   */
  lemma CompletedDumpLog(c: Config, net: Network, cbs: seq<DumpFn>, st: DumpState)
    requires SlabsFrom(c, net, cbs, 0, st).Going?
    ensures AsciiDumpSpec(c, net, cbs, st).0.trace == st.trace + DumpEvents(c, net, cbs, 0)
  {
    CompletedRunLog(c, net, cbs, 0, st);
  }

  /** Slabs 0..63 reach every server whatever its version. */
  lemma LowSlabsReachEveryServer(c: Config, net: Network, cbs: seq<DumpFn>, st: DumpState, y: nat, s: nat)
    requires SlabsFrom(c, net, cbs, 0, st).Going?
    requires y < FirstSkippedSlab && s < |c.servers|
    ensures Sent(y, s, Command(y)) in Added(st.trace, AsciiDumpSpec(c, net, cbs, st).0.trace)
  {
    CompletedDump(c, net, cbs, st);
    SentExactlyHas(c, Added(st.trace, AsciiDumpSpec(c, net, cbs, st).0.trace), 0, SlabClassCount, y, s);
  }

  /**
   * A server whose version could not be read is never skipped: a completed
   * dump sends it the command of every slab 0..199.
   */
  lemma UnknownVersionReachesEverySlab(c: Config, net: Network, cbs: seq<DumpFn>, st: DumpState, y: nat, s: nat)
    requires SlabsFrom(c, net, cbs, 0, st).Going?
    requires y < SlabClassCount && s < |c.servers| && c.servers[s].major == UnknownMajor
    ensures Sent(y, s, Command(y)) in Added(st.trace, AsciiDumpSpec(c, net, cbs, st).0.trace)
  {
    CompletedDump(c, net, cbs, st);
    SentExactlyHas(c, Added(st.trace, AsciiDumpSpec(c, net, cbs, st).0.trace), 0, SlabClassCount, y, s);
  }

  lemma SentExactlyHas(c: Config, t: seq<Event>, lo: nat, hi: nat, y: nat, s: nat)
    requires SentExactly(c, t, lo, hi)
    requires lo <= y < hi && s < |c.servers| && ReceivesSlab(c.servers[s], y)
    ensures Sent(y, s, Command(y)) in t
  {
  }

  /**
   * Early exit: a dump that does not run through all slabs ends because the
   * command buffer cannot hold a slab id, or because of a failed send or a
   * fatal response that is the last event logged; since the trace is ordered
   * by slab, no later slab was touched.
   */
  lemma AbortedDump(c: Config, net: Network, cbs: seq<DumpFn>, st: DumpState)
    requires SlabsFrom(c, net, cbs, 0, st).Stopped?
    ensures var (after, rc) := AsciiDumpSpec(c, net, cbs, st);
            var added := Added(st.trace, after.trace);
            && StopCause(c, net, added, after, rc)
            && (added != [] ==> forall k :: 0 <= k < |added| ==> added[k].slab <= added[|added| - 1].slab)
  {
    SlabsFromShape(c, net, cbs, 0, st);
  }

  /**
   * A buffer that holds "199" and its NUL never takes the allocation-failure
   * exit: a dump that stops early then stops on a failed send or a fatal
   * response, the last event logged, and returns that event's code.
   */
  lemma NoAllocationFailure(c: Config, net: Network, cbs: seq<DumpFn>, st: DumpState)
    requires c.commandSize >= 4
    requires SlabsFrom(c, net, cbs, 0, st).Stopped?
    ensures var (after, rc) := AsciiDumpSpec(c, net, cbs, st);
            StopsOnEvent(net, Added(st.trace, after.trace), rc)
  {
    SlabsFromShape(c, net, cbs, 0, st);
  }

  /** With no servers every slab pass sends nothing and drains nothing. */
  lemma {:induction false} NoServersSlabs(c: Config, net: Network, cbs: seq<DumpFn>, x: nat, st: DumpState)
    requires |c.servers| == 0 && c.commandSize >= 4 && WellFormed(c, net)
    requires x <= SlabClassCount
    ensures SlabsFrom(c, net, cbs, x, st) == Going(st)
    decreases SlabClassCount - x
  {
    if x < SlabClassCount {
      FormatNeverOverflows(x, c.commandSize);
      NoServersNoResponses(c, net, x);
      NoServersSlabs(c, net, cbs, x + 1, st);
    }
  }

  lemma NoServersNoResponses(c: Config, net: Network, x: nat)
    ensures |c.servers| == 0 && WellFormed(c, net) && x < SlabClassCount ==> net.readable(x) == []
  {
    if net.readable(x) != [] && x < SlabClassCount {
      var r := net.readable(x)[0];
      assert !WellFormed(c, net) || r.server < |c.servers|;
    }
  }

  /** An empty server set: 200 passes, no sends, no reads, and success unless an error was already pending. */
  lemma NoServersDump(c: Config, net: Network, cbs: seq<DumpFn>, st: DumpState)
    requires |c.servers| == 0 && c.commandSize >= 4 && WellFormed(c, net)
    ensures AsciiDumpSpec(c, net, cbs, st) == (st, if st.rootError.Some? then SomeErrors else Success)
  {
    NoServersSlabs(c, net, cbs, 0, st);
  }

  /** All callbacks succeed on every item. */
  ghost predicate CallbacksSucceed(cbs: seq<DumpFn>) {
    forall j, a :: 0 <= j < |cbs| ==> cbs[j](a) == Success
  }

  lemma {:induction false} CleanRunCallbacks(c: Config, cbs: seq<DumpFn>, x: nat, s: nat, args: DumpArgs, j: nat, st: DumpState)
    requires CallbacksSucceed(cbs) && j <= |cbs|
    ensures RunCallbacks(c, cbs, x, s, args, j, st).rootError == st.rootError
    decreases |cbs| - j
  {
    if j < |cbs| {
      CleanRunCallbacks(c, cbs, x, s, args, j + 1, Log(st, Called(x, s, j, args)));
    }
  }

  lemma {:induction false} CleanCollect(c: Config, cbs: seq<DumpFn>, x: nat, rs: seq<Response>, i: nat, st: DumpState)
    requires CallbacksSucceed(cbs) && st.rootError.None? && i <= |rs|
    ensures CollectFrom(c, cbs, x, rs, i, st).st.rootError.None?
    decreases |rs| - i
  {
    if i < |rs| {
      var r := rs[i];
      if r.rc.Item? {
        CleanRunCallbacks(c, cbs, x, r.server, ItemArgs(r.line), 0, Log(st, Received(x, r.server, r.rc, r.line)));
      }
      var step := HandleResponse(c, cbs, x, r, st);
      if step.Going? {
        CleanCollect(c, cbs, x, rs, i + 1, step.st);
      }
    }
  }

  lemma CleanPass(c: Config, net: Network, cbs: seq<DumpFn>, x: nat, st: DumpState)
    requires CallbacksSucceed(cbs) && st.rootError.None?
    ensures var pass := SlabPass(c, net, cbs, x, st);
            pass.Going? ==> pass.st.rootError.None?
  {
    match FormatSlabId(x, c.commandSize)
    case None =>
    case Some(digits) =>
      var cmd := CachedumpCommand(digits);
      match SendFrom(c, net, x, cmd, 0, st)
      case Stopped(_, _) =>
      case Going(sent) =>
        CleanCollect(c, cbs, x, net.readable(x), 0, sent);
  }

  lemma {:induction false} CleanSlabs(c: Config, net: Network, cbs: seq<DumpFn>, x: nat, st: DumpState)
    requires CallbacksSucceed(cbs) && st.rootError.None? && x <= SlabClassCount
    ensures var r := SlabsFrom(c, net, cbs, x, st);
            r.Going? ==> r.st.rootError.None?
    decreases SlabClassCount - x
  {
    if x < SlabClassCount {
      var pass := SlabPass(c, net, cbs, x, st);
      CleanPass(c, net, cbs, x, st);
      if pass.Going? {
        CleanSlabs(c, net, cbs, x + 1, pass.st);
      }
    }
  }

  /**
   * Final outcome: when no error was pending and every callback succeeds, a
   * dump that runs through all slabs returns MEMCACHED_SUCCESS.
   */
  lemma CleanDumpSucceeds(c: Config, net: Network, cbs: seq<DumpFn>, st: DumpState)
    requires CallbacksSucceed(cbs) && st.rootError.None?
    requires SlabsFrom(c, net, cbs, 0, st).Going?
    ensures AsciiDumpSpec(c, net, cbs, st).1 == Success
  {
    CleanSlabs(c, net, cbs, 0, st);
  }
}
