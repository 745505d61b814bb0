/**
 * The dump driver as code that updates a handle in place.  `Memcached` holds
 * the handle's fixed configuration, the error slot of the handle itself and
 * one error slot per server instance; a ghost trace records what was sent,
 * drained and called.  Every method is proved against the step function of
 * the same name in `DumpModel`, where the properties of the dump are proved.
 */
module Dump {
  import opened Wrappers
  import opened ReturnCodes
  import opened DumpCommand
  import opened DumpModel

  class Memcached {
    /** Server versions, in server-key order, as `memcached_version` found them. */
    const servers: seq<Version>
    const binary: bool
    /** The size of the buffer the slab id is formatted into. */
    const commandSize: nat
    /** Whether recording an error on an instance also records it on the handle. */
    const instanceErrorReachesRoot: bool

    var rootError: Option<ReturnCode>
    var instanceErrors: seq<Option<ReturnCode>>
    ghost var trace: seq<Event>

    /**
     * One error slot per server, so every server key names a slot: recording
     * or clearing an instance's error always lands (see `SetError` and
     * `FreeErrors`).
     */
    predicate Valid()
      reads this
    {
      |instanceErrors| == |servers|
    }

    function Cfg(): Config {
      Config(servers, commandSize, instanceErrorReachesRoot)
    }

    ghost function State(): DumpState
      reads this
    {
      DumpState(rootError, instanceErrors, trace)
    }

    /** A fresh handle: no error anywhere and nothing sent yet. */
    constructor (servers: seq<Version>, binary: bool, commandSize: nat, instanceErrorReachesRoot: bool)
      ensures Valid()
      ensures this.servers == servers && this.binary == binary
      ensures this.commandSize == commandSize && this.instanceErrorReachesRoot == instanceErrorReachesRoot
      ensures rootError == None && trace == []
      ensures forall s :: 0 <= s < |servers| ==> instanceErrors[s] == None
    {
      this.servers := servers;
      this.binary := binary;
      this.commandSize := commandSize;
      this.instanceErrorReachesRoot := instanceErrorReachesRoot;
      rootError := None;
      instanceErrors := seq(|servers|, _ => None);
      trace := [];
    }

    /** `memcached_set_error(*instance, rc)` for the instance with server key `s`. */
    method SetError(s: nat, rc: ReturnCode)
      requires Valid()
      modifies this
      ensures Valid()
      ensures State() == SetInstanceError(Cfg(), old(State()), s, rc)
      ensures s < |servers| ==> instanceErrors[s] == Some(rc)
    {
      if s < |instanceErrors| {
        instanceErrors := instanceErrors[s := Some(rc)];
      }
      if instanceErrorReachesRoot {
        rootError := Some(rc);
      }
    }

    /** `memcached_error_free(*instance)` then `memcached_error_free(*memc)`. */
    method FreeErrors(s: nat)
      requires Valid()
      modifies this
      ensures Valid()
      ensures State() == ClearErrors(old(State()), s)
      ensures s < |servers| ==> instanceErrors[s] == None
    {
      if s < |instanceErrors| {
        instanceErrors := instanceErrors[s := None];
      }
      rootError := None;
    }

    /** Sends the slab-`x` command to every eligible server; `Some(rc)` is a failed send. */
    method SendSlab(net: Network, x: nat, cmd: seq<char>) returns (failed: Option<ReturnCode>)
      requires Valid()
      modifies this
      ensures Valid()
      ensures failed.None? ==> SendFrom(Cfg(), net, x, cmd, 0, old(State())) == Going(State())
      ensures failed.Some? ==> SendFrom(Cfg(), net, x, cmd, 0, old(State())) == Stopped(State(), failed.value)
    {
      var serverKey := 0;
      while serverKey < |servers|
        invariant serverKey <= |servers|
        invariant Valid()
        invariant SendFrom(Cfg(), net, x, cmd, 0, old(State())) == SendFrom(Cfg(), net, x, cmd, serverKey, State())
      {
        if ReceivesSlab(servers[serverKey], x) {
          trace := trace + [Sent(x, serverKey, cmd)];
          var vdoRc := net.vdo(x, serverKey);
          if IsFailed(vdoRc) {
            return Some(vdoRc);
          }
        }
        serverKey := serverKey + 1;
      }
      return None;
    }

    /** Runs the callbacks on one item in array order, up to the first that does not succeed. */
    method RunItemCallbacks(callbacks: seq<DumpFn>, x: nat, s: nat, args: DumpArgs)
      requires Valid()
      modifies this
      ensures Valid()
      ensures State() == RunCallbacks(Cfg(), callbacks, x, s, args, 0, old(State()))
    {
      var counter := 0;
      while counter < |callbacks|
        invariant counter <= |callbacks|
        invariant Valid()
        invariant RunCallbacks(Cfg(), callbacks, x, s, args, 0, old(State()))
               == RunCallbacks(Cfg(), callbacks, x, s, args, counter, State())
      {
        ghost var before := State();
        trace := trace + [Called(x, s, counter, args)];
        var callbackRc := callbacks[counter](args);
        if callbackRc != Success {
          SetError(s, callbackRc);
          assert State() == RunCallbacks(Cfg(), callbacks, x, s, args, counter, before);
          return;
        }
        counter := counter + 1;
      }
    }

    /** Drains the responses of slab `x`; `Some(rc)` is a response that ends the dump. */
    method Collect(net: Network, callbacks: seq<DumpFn>, x: nat) returns (fatal: Option<ReturnCode>)
      requires Valid()
      modifies this
      ensures Valid()
      ensures fatal.None? ==> CollectFrom(Cfg(), callbacks, x, net.readable(x), 0, old(State())) == Going(State())
      ensures fatal.Some? ==> CollectFrom(Cfg(), callbacks, x, net.readable(x), 0, old(State())) == Stopped(State(), fatal.value)
    {
      var responses := net.readable(x);
      var i := 0;
      while i < |responses|
        invariant i <= |responses|
        invariant Valid()
        invariant CollectFrom(Cfg(), callbacks, x, responses, 0, old(State()))
               == CollectFrom(Cfg(), callbacks, x, responses, i, State())
      {
        var r := responses[i];
        ghost var before := State();
        trace := trace + [Received(x, r.server, r.rc, r.line)];
        if r.rc == Item {
          RunItemCallbacks(callbacks, x, r.server, ItemArgs(r.line));
        } else if r.rc == End {
        } else if r.rc == ServerError {
          return Some(r.rc);
        } else if r.rc == ClientError {
          if IsIllegalSlabId(r.line) {
            FreeErrors(r.server);
          } else {
            return Some(r.rc);
          }
        } else {
          return Some(r.rc);
        }
        assert HandleResponse(Cfg(), callbacks, x, r, before) == Going(State());
        i := i + 1;
      }
      return None;
    }

    /** `ascii_dump`: slabs 0..199 in order, each formatted, sent and drained. */
    method AsciiDump(net: Network, callbacks: seq<DumpFn>) returns (rc: ReturnCode)
      requires Valid()
      modifies this
      ensures Valid()
      ensures (State(), rc) == AsciiDumpSpec(Cfg(), net, callbacks, old(State()))
    {
      var x := 0;
      while x < SlabClassCount
        invariant x <= SlabClassCount
        invariant Valid()
        invariant SlabsFrom(Cfg(), net, callbacks, 0, old(State())) == SlabsFrom(Cfg(), net, callbacks, x, State())
      {
        ghost var before := State();
        var buffer := FormatSlabId(x, commandSize);
        if buffer.None? {
          rootError := Some(MemoryAllocationFailure);
          return MemoryAllocationFailure;
        }
        var cmd := CachedumpCommand(buffer.value);
        var failed := SendSlab(net, x, cmd);
        if failed.Some? {
          return failed.value;
        }
        var fatal := Collect(net, callbacks, x);
        if fatal.Some? {
          return fatal.value;
        }
        assert SlabPass(Cfg(), net, callbacks, x, before) == Going(State());
        x := x + 1;
      }
      rc := if rootError.Some? then SomeErrors else Success;
    }

    /**
     * `memcached_dump`: `initRc` is what `initialize_query` returned; a failure
     * is passed back unchanged, the binary protocol is refused, and otherwise
     * the ASCII dump runs.
     */
    method MemcachedDump(initRc: ReturnCode, net: Network, callbacks: seq<DumpFn>) returns (rc: ReturnCode)
      requires Valid()
      modifies this
      ensures Valid()
      ensures (State(), rc) == MemcachedDumpSpec(Cfg(), binary, initRc, net, callbacks, old(State()))
    {
      if IsFailed(initRc) {
        return initRc;
      }
      if binary {
        rootError := Some(NotSupported);
        return NotSupported;
      }
      rc := AsciiDump(net, callbacks);
    }
  }
}
