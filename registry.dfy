/**
 * The discovery file `~/.vscode_instances.json` (src/extension.ts:14-58):
 * a JSON object from process id, in decimal, to the descriptor of the
 * bridge listening in that process. The file is abstracted as its parsed
 * content, or as missing or unreadable; how writing it turns out is a
 * property of the store.
 */
module Registry {
  import opened Wrappers
  import Text

  datatype Descriptor = Descriptor(name: string, pid: nat, host: string, port: nat)

  /** What reading the file finds: nothing, something that fails to read or parse, or a registry. */
  datatype FileState = Absent | Unreadable | Stored(instances: map<string, Descriptor>)

  /**
   * How `fs.writeFileSync` turns out. It opens the file for writing, which
   * truncates it, and then writes: it succeeds, fails before the file is
   * opened (nothing changes), or fails after the truncation (an empty or
   * partial file is left, which the next read cannot parse).
   */
  datatype WriteOutcome = Written | Refused | Truncated

  /** The file after writing `data` whole with the given outcome. */
  function AfterWrite(f: FileState, w: WriteOutcome, data: map<string, Descriptor>): (g: FileState)
    ensures w == Written ==> g == Stored(data)
    ensures w == Refused ==> g == f
    ensures w == Truncated ==> Loaded(g) == map[]
  {
    match w
    case Written => Stored(data)
    case Refused => f
    case Truncated => Unreadable
  }

  const NoProject: string := "[no_project]"
  const Localhost: string := "localhost"

  /** `instances[PID]`: a numeric property key is the number's decimal form. */
  function Key(pid: nat): (k: string)
    ensures Text.ParseNat(k) == Some(pid)
  {
    Text.ParseNatToString(pid);
    Text.NatToString(pid)
  }

  /** Distinct processes have distinct entries. */
  lemma KeyInjective(p: nat, q: nat)
    requires p != q
    ensures Key(p) != Key(q)
  {
    Text.NatToStringInjective(p, q);
  }

  /** `readInstances()`: the stored registry, or `{}` when the file is missing or fails to parse. */
  function Loaded(f: FileState): (m: map<string, Descriptor>)
    ensures !f.Stored? ==> m == map[]
    ensures f.Stored? ==> m == f.instances
  {
    if f.Stored? then f.instances else map[]
  }

  /** The entry `updateInstance` writes: the workspace path, or "[no_project]" without one. */
  function OwnDescriptor(pid: nat, rootPath: Option<string>, port: nat): (d: Descriptor)
    ensures d.pid == pid && d.host == Localhost && d.port == port
    ensures d.name == if rootPath.Some? then rootPath.value else NoProject
  {
    Descriptor(rootPath.GetOr(NoProject), pid, Localhost, port)
  }

  /** The file after `updateInstance`: the own entry inserted or overwritten, when the write succeeds. */
  function AfterUpdate(f: FileState, w: WriteOutcome, pid: nat, rootPath: Option<string>, port: nat): (g: FileState)
    ensures w == Refused ==> g == f
    ensures w == Truncated ==> Loaded(g) == map[]
    ensures w == Written ==> g.Stored? && g.instances.Keys == Loaded(f).Keys + {Key(pid)}
    ensures w == Written ==> g.instances[Key(pid)] == OwnDescriptor(pid, rootPath, port)
    ensures w == Written ==> forall k :: k in Loaded(f) && k != Key(pid) ==> g.instances[k] == Loaded(f)[k]
  {
    AfterWrite(f, w, Loaded(f)[Key(pid) := OwnDescriptor(pid, rootPath, port)])
  }

  /** The file after `removeInstance`: rewritten without the own entry, only if that entry was there. */
  function AfterRemove(f: FileState, w: WriteOutcome, pid: nat): (g: FileState)
    ensures Key(pid) !in Loaded(f) || w == Refused ==> g == f
    ensures Key(pid) in Loaded(f) && w == Truncated ==> Loaded(g) == map[]
    ensures Key(pid) in Loaded(f) && w == Written ==> g.Stored? && g.instances.Keys == Loaded(f).Keys - {Key(pid)}
    ensures g.Stored? ==> forall k :: k in g.instances ==> k in Loaded(f) && g.instances[k] == Loaded(f)[k]
  {
    if Key(pid) in Loaded(f) then AfterWrite(f, w, Loaded(f) - {Key(pid)}) else f
  }

  /** The discovery file, read and written whole. */
  class InstanceFile {
    var state: FileState
    /** How `fs.writeFileSync` turns out; a failed write is logged and ignored. */
    var outcome: WriteOutcome

    constructor (state: FileState, outcome: WriteOutcome)
      ensures this.state == state && this.outcome == outcome
    {
      this.state := state;
      this.outcome := outcome;
    }

    /** `readInstances()`. */
    method ReadInstances() returns (instances: map<string, Descriptor>)
      ensures !state.Stored? ==> instances == map[]
      ensures state.Stored? ==> instances == state.instances
    {
      if state.Stored? {
        return state.instances;
      }
      return map[];
    }

    /**
     * `writeInstances(data)`: replaces the whole file; a write refused
     * before opening leaves it as it was, one that fails after the
     * truncation leaves it unreadable.
     */
    method WriteInstances(data: map<string, Descriptor>)
      modifies this`state
      ensures state == AfterWrite(old(state), outcome, data)
    {
      match outcome
      case Written => state := Stored(data);
      case Refused =>
      case Truncated => state := Unreadable;
    }

    /** `updateInstance(address)`: register this process as listening on `port`. */
    method UpdateInstance(pid: nat, rootPath: Option<string>, port: nat)
      modifies this`state
      ensures state == AfterUpdate(old(state), outcome, pid, rootPath, port)
      ensures outcome == Written ==> Loaded(state)[Key(pid)] == OwnDescriptor(pid, rootPath, port)
      ensures outcome != Truncated ==>
        forall k :: k in old(Loaded(state)) && k != Key(pid) ==> k in Loaded(state) && Loaded(state)[k] == old(Loaded(state))[k]
    {
      var instances := ReadInstances();
      instances := instances[Key(pid) := OwnDescriptor(pid, rootPath, port)];
      WriteInstances(instances);
    }

    /** `removeInstance()`: unregister this process; nothing is written when it was not registered. */
    method RemoveInstance(pid: nat)
      modifies this`state
      ensures state == AfterRemove(old(state), outcome, pid)
      ensures outcome != Refused ==> Key(pid) !in Loaded(state)
      ensures Key(pid) !in old(Loaded(state)) ==> state == old(state)
      ensures outcome != Truncated ==>
        forall k :: k in old(Loaded(state)) && k != Key(pid) ==> k in Loaded(state) && Loaded(state)[k] == old(Loaded(state))[k]
    {
      var instances := ReadInstances();
      if Key(pid) in instances {
        instances := instances - {Key(pid)};
        WriteInstances(instances);
      }
    }

    /** Activation followed by deactivation: every other process's entry is as before, unless a write truncated the file. */
    method StartThenStop(pid: nat, rootPath: Option<string>, port: nat)
      modifies this`state
      ensures state == AfterRemove(AfterUpdate(old(state), outcome, pid, rootPath, port), outcome, pid)
      ensures outcome == Written ==> Loaded(state) == old(Loaded(state)) - {Key(pid)}
      ensures outcome == Refused ==> state == old(state)
      ensures outcome == Truncated ==> Loaded(state) == map[]
    {
      UpdateInstance(pid, rootPath, port);
      RemoveInstance(pid);
      StartStopForgetsOnlySelf(old(state), outcome, pid, rootPath, port);
    }
  }

  /**
   * Registering, then unregistering, the same process leaves the other
   * entries exactly as they were before the registration when the writes
   * succeed, changes nothing when they are refused, and loses every entry
   * when a write truncates the file.
   */
  lemma StartStopForgetsOnlySelf(f: FileState, w: WriteOutcome, pid: nat, rootPath: Option<string>, port: nat)
    ensures w == Written ==> Loaded(AfterRemove(AfterUpdate(f, w, pid, rootPath, port), w, pid)) == Loaded(f) - {Key(pid)}
    ensures w == Refused ==> AfterRemove(AfterUpdate(f, w, pid, rootPath, port), w, pid) == f
    ensures w == Truncated ==> Loaded(AfterRemove(AfterUpdate(f, w, pid, rootPath, port), w, pid)) == map[]
  {
    if w == Written {
      var m := Loaded(f);
      var u := m[Key(pid) := OwnDescriptor(pid, rootPath, port)];
      assert u - {Key(pid)} == m - {Key(pid)};
    }
  }

  /** Unregistering twice is unregistering once, whatever the writes do. */
  lemma RemoveIdempotent(f: FileState, w: WriteOutcome, pid: nat)
    ensures AfterRemove(AfterRemove(f, w, pid), w, pid) == AfterRemove(f, w, pid)
  {
  }

  /**
   * The entry of any other process survives registration and
   * unregistration of this one unchanged, as long as no write truncates
   * the file.
   */
  lemma OtherProcessUntouched(f: FileState, w: WriteOutcome, pid: nat, other: nat, rootPath: Option<string>, port: nat)
    requires other != pid && Key(other) in Loaded(f) && w != Truncated
    ensures Key(other) in Loaded(AfterUpdate(f, w, pid, rootPath, port))
    ensures Loaded(AfterUpdate(f, w, pid, rootPath, port))[Key(other)] == Loaded(f)[Key(other)]
    ensures Key(other) in Loaded(AfterRemove(f, w, pid))
    ensures Loaded(AfterRemove(f, w, pid))[Key(other)] == Loaded(f)[Key(other)]
  {
    KeyInjective(other, pid);
  }

  /**
   * A write that fails after truncating the file loses the other
   * processes' entries: the next read finds none of them.
   */
  lemma TruncatedWriteLosesOthers(f: FileState, pid: nat, other: nat, rootPath: Option<string>, port: nat)
    requires other != pid && Key(other) in Loaded(f)
    ensures Key(other) !in Loaded(AfterUpdate(f, Truncated, pid, rootPath, port))
    ensures Key(pid) in Loaded(f) ==> Key(other) !in Loaded(AfterRemove(f, Truncated, pid))
  {
  }

  /** Registration is seen by the next reader: the own key maps to the own descriptor. */
  lemma UpdateRegisters(f: FileState, pid: nat, rootPath: Option<string>, port: nat)
    ensures Key(pid) in Loaded(AfterUpdate(f, Written, pid, rootPath, port))
    ensures Loaded(AfterUpdate(f, Written, pid, rootPath, port))[Key(pid)].pid == pid
    ensures Loaded(AfterUpdate(f, Written, pid, rootPath, port))[Key(pid)].host == Localhost
    ensures Loaded(AfterUpdate(f, Written, pid, rootPath, port))[Key(pid)].port == port
  {
  }
}
