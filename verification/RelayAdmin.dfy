/** The administrator's nonce counter and its state file: `RelayAdmin` in
    node/relay_admin.py. */
module RelayAdmin {
  import opened Common

  /** The counter in memory, the state file's contents, and whether there is a path
      to a state file at all. */
  datatype Admin = Admin(nonce: nat, file: Option<nat>, persistent: bool)

  /** `_load_nonce`: the file if it can be read, else the wall clock. */
  function Load(persistent: bool, file: Option<nat>, clock: nat): nat {
    if persistent && file.Some? then file.value else clock
  }

  function Started(persistent: bool, file: Option<nat>, clock: nat): Admin {
    Admin(Load(persistent, file, clock), file, persistent)
  }

  /** `_next_nonce`: count, save, then use. */
  function Advanced(a: Admin): Admin {
    Admin(a.nonce + 1, if a.persistent then Some(a.nonce + 1) else a.file, a.persistent)
  }

  /** The nonce field of the packet built next. */
  function Wire(a: Admin): uint32 {
    Advanced(a).nonce % UINT32
  }

  class StateFile {
    var contents: Option<nat>

    constructor ()
      ensures contents == None
    {
      contents := None;
    }
  }

  class RelayAdmin {
    const path: StateFile?
    var nonce: nat

    ghost function Contents(): Admin
      reads this, path
    {
      Admin(nonce, if path == null then None else path.contents, path != null)
    }

    constructor (stateFile: StateFile?, clock: nat)
      ensures path == stateFile
      ensures nonce == if stateFile != null && stateFile.contents.Some? then stateFile.contents.value else clock
      ensures Contents() == Started(stateFile != null, if stateFile == null then None else stateFile.contents, clock)
    {
      path := stateFile;
      if stateFile == null {
        nonce := clock;
      } else if stateFile.contents.Some? {
        nonce := stateFile.contents.value;
      } else {
        nonce := clock;
      }
    }

    method SaveNonce()
      modifies path
      ensures path != null ==> path.contents == Some(nonce)
    {
      if path == null {
        return;
      }
      path.contents := Some(nonce);
    }

    method NextNonce() returns (n: nat)
      modifies this, path
      ensures Contents() == Advanced(old(Contents())) && n == nonce == old(nonce) + 1
      ensures path != null ==> path.contents == Some(n)
    {
      nonce := nonce + 1;
      SaveNonce();
      n := nonce;
    }

    /** The nonce field `build_ctrl` puts into a packet. */
    method BuildNonce() returns (wire: uint32)
      modifies this, path
      ensures Contents() == Advanced(old(Contents())) && wire == Wire(old(Contents()))
      ensures wire == (old(nonce) + 1) % 0x1_0000_0000
    {
      var n := NextNonce();
      wire := n % UINT32;
    }
  }

  // ---- Runs with restarts and crashes ----

  datatype Op =
    | Build                         // a control packet is built and handed out
    | Restart(clock: nat)           // the daemon is started again
    | CrashBeforeSave(clock: nat)   // it dies while building, before saving, and restarts
    | CrashAfterSave(clock: nat)    // it dies while building, after saving, and restarts

  function Apply(a: Admin, op: Op): Admin {
    match op
    case Build => Advanced(a)
    case Restart(clock) => Started(a.persistent, a.file, clock)
    case CrashBeforeSave(clock) => Started(a.persistent, a.file, clock)
    case CrashAfterSave(clock) => Started(a.persistent, Advanced(a).file, clock)
  }

  function AdminAfter(a: Admin, ops: seq<Op>): Admin {
    if ops == [] then a else Apply(AdminAfter(a, ops[..|ops| - 1]), ops[|ops| - 1])
  }

  /** The nonces handed out over a run, in order. */
  function Emitted(a: Admin, ops: seq<Op>): seq<uint32> {
    if ops == [] then []
    else
      var f := ops[..|ops| - 1];
      Emitted(a, f) + if ops[|ops| - 1].Build? then [Wire(AdminAfter(a, f))] else []
  }

  function Builds(n: nat): (ops: seq<Op>)
    ensures |ops| == n && forall i :: 0 <= i < n ==> ops[i] == Build
  {
    seq(n, i => Build)
  }

  /** Packets built in a row carry consecutive nonces, starting after the counter. */
  lemma {:induction false} BuildsCountUp(a: Admin, n: nat)
    ensures AdminAfter(a, Builds(n)).nonce == a.nonce + n && |Emitted(a, Builds(n))| == n
    ensures forall i :: 0 <= i < n ==> Emitted(a, Builds(n))[i] == (a.nonce + 1 + i) % 0x1_0000_0000
  {
    if 0 < n {
      BuildsCountUp(a, n - 1);
      assert Builds(n)[..n - 1] == Builds(n - 1);
    }
  }

  /** The first nonce after a start is one above the file, or above the clock if there
      is no file to read. */
  lemma FirstNonce(persistent: bool, file: Option<nat>, clock: nat)
    ensures Wire(Started(persistent, file, clock))
            == ((if persistent && file.Some? then file.value else clock) + 1) % 0x1_0000_0000
  {
  }

  /** A crash before saving repeats no nonce and skips none; a crash after saving
      skips exactly the one that was not handed out. */
  lemma CrashesSkipAtMostOne(a: Admin, clock: nat)
    requires InSync(a) && a.file.Some?
    ensures Wire(Apply(a, Restart(clock))) == Wire(a) && Wire(Apply(a, CrashBeforeSave(clock))) == Wire(a)
    ensures Wire(Apply(a, CrashAfterSave(clock))) == (a.nonce + 2) % 0x1_0000_0000
  {
  }

  /** Everything handed out is covered by the file, and the counter is the file's. */
  ghost predicate Covered(a: Admin, emitted: seq<uint32>) {
    match a.file
    case None => emitted == []
    case Some(n) => a.nonce == n && forall i :: 0 <= i < |emitted| ==> emitted[i] <= n
  }

  ghost predicate Increasing(s: seq<uint32>) {
    forall i, j :: 0 <= i < j < |s| ==> s[i] < s[j]
  }

  ghost predicate InSync(a: Admin) {
    a.persistent && (a.file.Some? ==> a.nonce == a.file.value)
  }

  /** Saving before use keeps counter and file together, and the file never shrinks. */
  lemma StepInSync(a: Admin, op: Op)
    requires InSync(a)
    ensures InSync(Apply(a, op))
    ensures a.file.Some? ==> Apply(a, op).file.Some? && a.file.value <= Apply(a, op).file.value
  {
  }

  /** The file stays below 2^32, so nothing handed out has wrapped. */
  ghost predicate NoWrap(a: Admin) {
    a.file.Some? ==> a.file.value < UINT32
  }

  lemma EmitNext(a: Admin, emitted: seq<uint32>)
    requires InSync(a) && Covered(a, emitted) && Increasing(emitted) && NoWrap(Advanced(a))
    ensures Covered(Advanced(a), emitted + [Wire(a)]) && Increasing(emitted + [Wire(a)])
  {
    assert Wire(a) == a.nonce + 1;
  }

  /** With a state file, nonces strictly increase across restarts and crashes for as
      long as the counter stays below 2^32. */
  lemma {:induction false} NoncesIncrease(start: Admin, ops: seq<Op>)
    requires InSync(start) && NoWrap(AdminAfter(start, ops))
    ensures InSync(AdminAfter(start, ops))
    ensures Increasing(Emitted(start, ops)) && Covered(AdminAfter(start, ops), Emitted(start, ops))
  {
    if ops != [] {
      var f, op := ops[..|ops| - 1], ops[|ops| - 1];
      FileKept(start, f);
      StepInSync(AdminAfter(start, f), op);
      NoncesIncrease(start, f);
      if op.Build? {
        EmitNext(AdminAfter(start, f), Emitted(start, f));
      } else {
        AppendEmpty(Emitted(start, f));
      }
    }
  }

  lemma {:induction false} FileKept(start: Admin, ops: seq<Op>)
    requires InSync(start)
    ensures InSync(AdminAfter(start, ops))
  {
    if ops != [] {
      FileKept(start, ops[..|ops| - 1]);
      StepInSync(AdminAfter(start, ops[..|ops| - 1]), ops[|ops| - 1]);
    }
  }

  lemma StartedInSync(file: Option<nat>, clock: nat)
    ensures InSync(Started(true, file, clock))
  {
  }

  /** Without one, a restart continues the sequence exactly when the wall clock has
      not fallen behind the last nonce handed out. */
  lemma RestartWithoutFile(a: Admin, clock: nat)
    requires !a.persistent && a.nonce + 1 < UINT32 && clock + 1 < UINT32
    ensures Wire(Apply(Apply(a, Build), Restart(clock))) > Wire(a) <==> clock > a.nonce
  {
  }

  /** At 2^32 the field wraps: the next nonce is greater exactly if it is not 0. */
  lemma WrapBreaksOrder(a: Admin)
    ensures Wire(Apply(a, Build)) > Wire(a) <==> Wire(Apply(a, Build)) != 0
  {
  }
}
