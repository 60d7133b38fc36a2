/** `ProfileStore` (orchestrator/bimarz/profiles.py): an encrypted map from id to profile
    in one file that is replaced atomically.

    Key derivation and encryption are symbolic: a ciphertext remembers the key it was
    made under, and decrypting succeeds exactly under that key. */
module ProfileStore {
  import opened Text
  import opened Health

  type Profiles = map<string, ServerProfile>

  datatype Key = Key(password: string, salt: string)

  datatype Payload = Mapping(profiles: Profiles) | NotMapping

  /** What a file can hold; Garbage is anything that is not the JSON envelope. */
  datatype Content = Envelope(salt: string, key: Key, payload: Payload) | Garbage

  datatype File = File(content: Content, synced: bool)

  /** What the profiles path names at one time. */
  type Slot = Option<File>

  function Sealed(password: string, salt: string, profiles: Profiles): File {
    File(Envelope(salt, Key(password, salt), Mapping(profiles)), true)
  }

  // ---- crash points ----

  /** The path at one moment: what it has named since the directory was last synced, oldest
      first.  The last entry is what the running system sees. */
  datatype Moment = Moment(shown: seq<Slot>)

  datatype Found = Missing | Holds(content: Content)

  /** What may be found in a slot after a power loss: unsynced data may be anything. */
  ghost predicate SlotMayHold(slot: Slot, found: Found) {
    match slot
    case None => found == Missing
    case Some(f) => found.Holds? && (f.synced ==> found.content == f.content)
  }

  /** After a power loss any of the directory changes since the last sync may be the last
      that reached the medium. */
  ghost predicate MayFind(m: Moment, found: Found) {
    exists k :: 0 <= k < |m.shown| && SlotMayHold(m.shown[k], found)
  }

  function Exactly(slot: Slot): Found {
    match slot case None => Missing case Some(f) => Holds(f.content)
  }

  ghost predicate Synced(slots: seq<Slot>) {
    forall k :: 0 <= k < |slots| && slots[k].Some? ==> slots[k].value.synced
  }

  /** Up to this moment a write of `file` has changed nothing, has shown the new file on top
      of the earlier ones, or has put it on the medium. */
  ghost predicate OldOrNew(m: Moment, before: Moment, file: File) {
    m.shown == before.shown || m.shown == before.shown + [Some(file)] || m.shown == [Some(file)]
  }

  /** With synced files, what a power loss may find is exactly the whole files shown. */
  lemma CrashFindsShown(m: Moment, found: Found)
    requires Synced(m.shown)
    ensures MayFind(m, found) <==> exists k :: 0 <= k < |m.shown| && found == Exactly(m.shown[k])
  {
    if k :| 0 <= k < |m.shown| && found == Exactly(m.shown[k]) {
      assert SlotMayHold(m.shown[k], found);
    }
  }

  /** So a crash during a write finds the whole new file or one of the whole files shown
      before, and when the directory was synced before the write, the old file or the new. */
  lemma CrashFindsWholeFile(m: Moment, before: Moment, file: File, found: Found)
    requires OldOrNew(m, before, file) && Synced(before.shown) && file.synced && MayFind(m, found)
    ensures found == Holds(file.content) || exists k :: 0 <= k < |before.shown| && found == Exactly(before.shown[k])
    ensures |before.shown| == 1 ==> found == Exactly(before.shown[0]) || found == Holds(file.content)
  {
    var k :| 0 <= k < |m.shown| && SlotMayHold(m.shown[k], found);
    if m.shown[k] != Some(file) { assert before.shown[k] == m.shown[k]; }
  }

  /** And without that sync a file shown earlier can come back although neither the old nor
      the new file is it. */
  lemma EarlierFileCanReturn(before: Moment, file: File, k: nat)
    requires k < |before.shown| && Synced(before.shown) && file.synced
    ensures MayFind(Moment(before.shown + [Some(file)]), Exactly(before.shown[k]))
  {
    var m := Moment(before.shown + [Some(file)]);
    assert SlotMayHold(m.shown[k], Exactly(before.shown[k]));
  }

  /** The file system around the profiles path.  Operation number n fails exactly when
      `faults(n)`; `moments` records the path after every operation. */
  class Disk {
    const faults: nat -> bool
    var operations: nat
    var target: Slot
    var temp: Option<File>         // the temporary file of the write in progress
    var leftovers: nat             // temporary files that were given up without being removed
    ghost var shown: seq<Slot>
    ghost var moments: seq<Moment>

    constructor (faults: nat -> bool, initial: Slot)
      requires Synced([initial])
      ensures Valid() && target == initial && shown == [initial] && leftovers == 0 && this.faults == faults
    {
      this.faults := faults;
      operations, target, temp, leftovers := 0, initial, None, 0;
      shown, moments := [initial], [];
    }

    /** Between two writes. */
    ghost predicate Valid()
      reads this
    {
      Shows() && Synced(shown) && temp == None
    }

    ghost predicate Shows()
      reads this
    {
      |shown| > 0 && shown[|shown| - 1] == target
    }

    ghost function Now(): Moment
      reads this
    {
      Moment(shown)
    }

    /** One operation on something other than the path: mkdir, mkstemp, chmod, write,
        flush, fsync, open, close, unlink.  `after` is the temporary file if it succeeds. */
    method Operate(after: Option<File>, ifFailed: Option<File>) returns (ok: bool)
      modifies `operations, `temp, `moments
      ensures ok == !faults(old(operations)) && operations == old(operations) + 1
      ensures temp == if ok then after else ifFailed
      ensures moments == old(moments) + [Now()]
    {
      ok := !faults(operations);
      operations := operations + 1;
      temp := if ok then after else ifFailed;
      moments := moments + [Now()];
    }

    /** `os.replace(temp_name, path)`: all or nothing. */
    method Replace() returns (ok: bool)
      requires temp.Some?
      modifies `operations, `target, `temp, `shown, `moments
      ensures ok == !faults(old(operations)) && operations == old(operations) + 1
      ensures ok ==> target == old(temp) && temp == None && shown == old(shown) + [target]
      ensures !ok ==> target == old(target) && temp == old(temp) && shown == old(shown)
      ensures moments == old(moments) + [Now()]
    {
      ok := !faults(operations);
      operations := operations + 1;
      if ok { target, temp, shown := temp, None, shown + [temp]; }
      moments := moments + [Now()];
    }

    /** `os.fsync(directory_fd)` */
    method SyncDirectory() returns (ok: bool)
      modifies `operations, `shown, `moments
      ensures ok == !faults(old(operations)) && operations == old(operations) + 1
      ensures shown == if ok then [target] else old(shown)
      ensures moments == old(moments) + [Now()]
    {
      ok := !faults(operations);
      operations := operations + 1;
      if ok { shown := [target]; }
      moments := moments + [Now()];
    }

    /** `os.unlink(temp_name)`: a file that cannot be removed stays behind. */
    method Unlink()
      modifies `operations, `temp, `leftovers, `moments
      ensures operations == old(operations) + 1 && temp == None && moments == old(moments) + [Now()]
      ensures leftovers == old(leftovers) + if old(temp).Some? && faults(old(operations)) then 1 else 0
    {
      if temp.Some? && faults(operations) { leftovers := leftovers + 1; }
      operations, temp := operations + 1, None;
      moments := moments + [Now()];
    }
  }

  /** None of the `count` operations from number `from` on fails. */
  ghost predicate Smooth(faults: nat -> bool, from: nat, count: nat) {
    forall n: nat :: from <= n < from + count ==> !faults(n)
  }

  /** mkdir and mkstemp, six operations on the temporary file, four to publish it. */
  const WRITE_OPERATIONS := 12

  /** The last of them that the new file needs to be shown: the replacement. */
  const SHOW_OPERATIONS := 9

  /** The last that it needs to be on the medium: the sync of the directory. */
  const SYNC_OPERATIONS := 11

  /** What the path has named since the last directory sync, after a write from operation
      number `from` on. */
  ghost function ShownAfter(shown: seq<Slot>, file: File, faults: nat -> bool, from: nat): seq<Slot> {
    if Smooth(faults, from, SYNC_OPERATIONS) then [Some(file)]
    else if Smooth(faults, from, SHOW_OPERATIONS) then shown + [Some(file)]
    else shown
  }

  datatype StoreError = EmptyPassword | InvalidData | WrongPassword | PayloadNotMapping | ProfileNotFound | IoError

  datatype Result<+T> = Ok(value: T) | Err(error: StoreError)

  /** What `_read_encrypted_state` makes of the path's contents. */
  function Interpret(slot: Slot, password: string, freshSalt: string): Result<(string, Profiles)> {
    match slot
    case None => Ok((freshSalt, map[]))
    case Some(f) =>
      match f.content
      case Garbage => Err(InvalidData)
      case Envelope(salt, key, payload) =>
        if key != Key(password, salt) then Err(WrongPassword)
        else if payload.NotMapping? then Err(PayloadNotMapping)
        else Ok((salt, payload.profiles))
  }

  /** The contents a password opens: a missing file is an empty store under the fresh salt,
      and an envelope opens under its own key if it holds a mapping. */
  ghost predicate Opens(slot: Slot, password: string, freshSalt: string, salt: string, m: Profiles) {
    if slot.None? then salt == freshSalt && m == map[]
    else slot.value.content == Envelope(salt, Key(password, salt), Mapping(m))
  }

  /** The contents it does not open, and why. */
  ghost predicate Closed(slot: Slot, password: string, e: StoreError) {
    slot.Some? &&
    match slot.value.content
    case Garbage => e == InvalidData
    case Envelope(salt, key, payload) =>
      if key == Key(password, salt) then payload.NotMapping? && e == PayloadNotMapping else e == WrongPassword
  }

  /** Every slot does exactly one of the two, in one way. */
  lemma OpensOrIsClosed(slot: Slot, password: string, freshSalt: string)
    ensures match Interpret(slot, password, freshSalt)
            case Ok((salt, m)) =>
              && Opens(slot, password, freshSalt, salt, m)
              && (forall other, n :: Opens(slot, password, freshSalt, other, n) ==> other == salt && n == m)
              && forall e :: !Closed(slot, password, e)
            case Err(e) =>
              && Closed(slot, password, e) && (forall d :: Closed(slot, password, d) ==> d == e)
              && forall salt, m :: !Opens(slot, password, freshSalt, salt, m)
  {
  }

  /** What was sealed under a password opens, salt and map intact, under that one only. */
  lemma SealedOpensIff(password: string, salt: string, profiles: Profiles, attempt: string, freshSalt: string)
    ensures Interpret(Some(Sealed(password, salt, profiles)), attempt, freshSalt) ==
            if attempt == password then Ok((salt, profiles)) else Err(WrongPassword)
  {
  }

  class ProfileStore {
    const disk: Disk
    const password: string

    constructor (disk: Disk, password: string)
      requires password != ""
      ensures this.disk == disk && this.password == password
    {
      this.disk, this.password := disk, password;
    }

    /** `__init__`: null when it raises for an empty password. */
    static method Create(disk: Disk, password: string) returns (store: ProfileStore?)
      ensures store == null <==> password == ""
      ensures store != null ==> fresh(store) && store.disk == disk && store.password == password
    {
      if password == "" { return null; }
      store := new ProfileStore(disk, password);
    }

    method ReadEncryptedState(freshSalt: string) returns (r: Result<(string, Profiles)>)
      modifies disk`operations, disk`moments, disk`temp
      ensures disk.operations == old(disk.operations) + (if disk.target.Some? then 1 else 0) && disk.temp == old(disk.temp)
      ensures disk.moments == old(disk.moments) + if disk.target.Some? then [disk.Now()] else []
      ensures r == if disk.target.Some? && disk.faults(old(disk.operations)) then Err(IoError)
                   else Interpret(disk.target, password, freshSalt)
      ensures var readable := !(disk.target.Some? && disk.faults(old(disk.operations)));
              && (forall e :: readable && Closed(disk.target, password, e) ==> r == Err(e))
              && (forall salt, m :: readable && Opens(disk.target, password, freshSalt, salt, m) ==> r == Ok((salt, m)))
    {
      OpensOrIsClosed(disk.target, password, freshSalt);
      if disk.target.Some? {
        var ok := disk.Operate(disk.temp, disk.temp);
        if !ok { return Err(IoError); }
      }
      r := Interpret(disk.target, password, freshSalt);
    }

    /** Every moment of the write leaves the old files or the new one with them or instead of
        them; which of these it ends with, and whether it succeeds, depends only on which of
        its operations is the first to fail.  A failed write leaves at most one temporary
        file behind, and only if removing it fails. */
    method WriteEncryptedState(salt: string, profiles: Profiles) returns (ok: bool)
      requires disk.Valid()
      modifies disk
      ensures disk.Valid()
      ensures old(disk.moments) <= disk.moments
      ensures forall n :: |old(disk.moments)| <= n < |disk.moments| ==>
                OldOrNew(disk.moments[n], old(disk.Now()), Sealed(password, salt, profiles))
      ensures disk.shown == ShownAfter(old(disk.shown), Sealed(password, salt, profiles), disk.faults, old(disk.operations))
      ensures ok <==> Smooth(disk.faults, old(disk.operations), WRITE_OPERATIONS)
      ensures disk.operations > old(disk.operations)
      ensures disk.leftovers == old(disk.leftovers) ||
              (disk.leftovers == old(disk.leftovers) + 1 && !ok && disk.faults(disk.operations - 1))
    {
      hide Synced, OldOrNew;
      var file := Sealed(password, salt, profiles);
      NothingWritten(disk.Now(), file);
      SyncedStays(disk.shown, file);
      ok := disk.Operate(None, None);                                                 // mkdir
      if !ok { return; }
      ok := disk.Operate(Some(File(Garbage, false)), None);                           // mkstemp
      if !ok { return; }
      assert Smooth(disk.faults, old(disk.operations), 2);
      ok := TryWrite(file);
      if !ok {
        var closed := disk.Operate(disk.temp, disk.temp);                             // close, suppressed
        disk.Unlink();                                                                // suppressed
        return;
      }
      var changed := disk.Operate(None, None);                                        // chmod, suppressed
    }

    /** The `try` block. */
    method TryWrite(file: File) returns (ok: bool)
      requires disk.temp.Some? && disk.Shows() && file.synced
      modifies disk`operations, disk`target, disk`temp, disk`shown, disk`moments
      ensures disk.Shows() && old(disk.moments) <= disk.moments
      ensures forall n :: |old(disk.moments)| <= n < |disk.moments| ==> OldOrNew(disk.moments[n], old(disk.Now()), file)
      ensures OldOrNew(disk.Now(), old(disk.Now()), file)
      ensures disk.shown == if Smooth(disk.faults, old(disk.operations), 9) then [Some(file)]
                            else if Smooth(disk.faults, old(disk.operations), 7) then old(disk.shown) + [Some(file)]
                            else old(disk.shown)
      ensures ok <==> Smooth(disk.faults, old(disk.operations), 10)
      ensures ok ==> disk.temp == None
      ensures disk.operations > old(disk.operations)
    {
      hide OldOrNew;
      NothingWritten(disk.Now(), file);
      ok := FillTemporary(file.content);
      if ok {
        assert Smooth(disk.faults, old(disk.operations), 6);
        ok := Publish(file);
      }
    }

    /** fchmod, fdopen, write, flush, fsync and close of the temporary file. */
    method FillTemporary(payload: Content) returns (ok: bool)
      modifies disk`operations, disk`temp, disk`moments
      ensures old(disk.moments) <= disk.moments
      ensures forall n :: |old(disk.moments)| <= n < |disk.moments| ==> disk.moments[n] == disk.Now()
      ensures ok <==> Smooth(disk.faults, old(disk.operations), 6)
      ensures ok ==> disk.temp == Some(File(payload, true)) && disk.operations == old(disk.operations) + 6
      ensures disk.operations > old(disk.operations)
    {
      var partial := Some(File(Garbage, false));
      ok := disk.Operate(partial, partial);                                           // fchmod
      if !ok { return; }
      ok := disk.Operate(partial, partial);                                           // fdopen
      if !ok { return; }
      ok := disk.Operate(Some(File(payload, false)), partial);                        // write
      if !ok { return; }
      ok := disk.Operate(Some(File(payload, false)), partial);                        // flush
      if !ok { return; }
      ok := disk.Operate(Some(File(payload, true)), Some(File(payload, false)));      // fsync
      if !ok { return; }
      ok := disk.Operate(disk.temp, disk.temp);                                       // close
    }

    /** replace, then fsync of the directory. */
    method Publish(file: File) returns (ok: bool)
      requires disk.temp == Some(file) && disk.Shows()
      modifies disk`operations, disk`target, disk`temp, disk`shown, disk`moments
      ensures disk.Shows() && old(disk.moments) <= disk.moments
      ensures forall n :: |old(disk.moments)| <= n < |disk.moments| ==> OldOrNew(disk.moments[n], old(disk.Now()), file)
      ensures OldOrNew(disk.Now(), old(disk.Now()), file)
      ensures disk.shown == if Smooth(disk.faults, old(disk.operations), 3) then [Some(file)]
                            else if Smooth(disk.faults, old(disk.operations), 1) then old(disk.shown) + [Some(file)]
                            else old(disk.shown)
      ensures ok <==> Smooth(disk.faults, old(disk.operations), 4)
      ensures disk.temp == if Smooth(disk.faults, old(disk.operations), 1) then None else Some(file)
      ensures disk.operations > old(disk.operations)
    {
      ok := disk.Replace();
      if !ok { return; }
      ok := disk.Operate(disk.temp, disk.temp);                                       // open directory
      if !ok { return; }
      ok := disk.SyncDirectory();
      var closed := disk.Operate(disk.temp, disk.temp);                               // finally: close
      ok := ok && closed;
    }

    method GetProfile(id: string, freshSalt: string) returns (r: Result<ServerProfile>)
      modifies disk`operations, disk`moments, disk`temp
      ensures r == (if disk.target.Some? && disk.faults(old(disk.operations)) then Err(IoError)
                    else match Interpret(disk.target, password, freshSalt)
                      case Err(e) => Err(e)
                      case Ok((salt, m)) => if id in m then Ok(m[id]) else Err(ProfileNotFound))
      ensures var readable := !(disk.target.Some? && disk.faults(old(disk.operations)));
              && (forall e :: readable && Closed(disk.target, password, e) ==> r == Err(e))
              && (forall salt, m :: readable && Opens(disk.target, password, freshSalt, salt, m) ==>
                    r == if id in m then Ok(m[id]) else Err(ProfileNotFound))
    {
      OpensOrIsClosed(disk.target, password, freshSalt);
      var state := ReadEncryptedState(freshSalt);
      if state.Err? { return Err(state.error); }
      var (salt, profiles) := state.value;
      if id !in profiles { return Err(ProfileNotFound); }
      r := Ok(profiles[id]);
    }

    /** `add_profile` and `remove_profile`, as one operation on the map. */
    method Update(op: Op, freshSalt: string) returns (r: Result<()>)
      requires disk.Valid()
      modifies disk
      ensures disk.Valid()
      ensures disk.operations >= old(disk.operations)
      ensures r == Answer(op, Interpret(old(disk.target), password, freshSalt),
                          old(disk.target.Some? && disk.faults(disk.operations)),
                          Smooth(disk.faults, old(disk.operations + if disk.target.Some? then 1 else 0), WRITE_OPERATIONS))
      ensures var before := Interpret(old(disk.target), password, freshSalt);
              var unreadable := old(disk.target.Some? && disk.faults(disk.operations));
              // Refused: the file is not touched.
              && (unreadable || before.Err? || !Applies(op, before.value.1) ==> disk.Now() == old(disk.Now()))
              // Accepted: the old files, or the updated one with or instead of them, under the same salt.
              && (!unreadable && before.Ok? && Applies(op, before.value.1) ==>
                    var updated := Sealed(password, before.value.0, Apply(op, before.value.1));
                    && disk.shown == ShownAfter(old(disk.shown), updated, disk.faults,
                                                old(disk.operations + if disk.target.Some? then 1 else 0))
                    && forall n :: |old(disk.moments)| <= n < |disk.moments| ==> OldOrNew(disk.moments[n], old(disk.Now()), updated))
      // The same over the contents: a file that does not open is reported and left alone, a
      // missing profile cannot be removed, and anything else is written under the same salt.
      ensures var from := old(disk.operations + if disk.target.Some? then 1 else 0);
              var readable := !old(disk.target.Some? && disk.faults(disk.operations));
              && (!readable ==> r == Err(IoError) && disk.shown == old(disk.shown))
              && (forall e :: readable && Closed(old(disk.target), password, e) ==> r == Err(e) && disk.shown == old(disk.shown))
              && (forall salt, m :: readable && Opens(old(disk.target), password, freshSalt, salt, m) ==>
                    && (op.Remove? && op.id !in m ==> r == Err(ProfileNotFound) && disk.shown == old(disk.shown))
                    && (op.Add? || op.id in m ==>
                          var next := if op.Add? then m[op.profile.profileId := op.profile] else m - {op.id};
                          && disk.shown == ShownAfter(old(disk.shown), Sealed(password, salt, next), disk.faults, from)
                          && r == if Smooth(disk.faults, from, WRITE_OPERATIONS) then Ok(()) else Err(IoError)))
    {
      OpensOrIsClosed(disk.target, password, freshSalt);
      hide Opens, Closed, ShownAfter, Smooth, Synced, Sealed;
      var state := ReadEncryptedState(freshSalt);
      if state.Err? { return Err(state.error); }
      var (salt, profiles) := state.value;
      if !Applies(op, profiles) { return Err(ProfileNotFound); }
      var ok := WriteEncryptedState(salt, Apply(op, profiles));
      r := if ok then Ok(()) else Err(IoError);
    }
  }

  lemma NothingWritten(m: Moment, file: File)
    ensures OldOrNew(m, m, file)
  {
  }

  lemma SyncedStays(shown: seq<Slot>, file: File)
    requires Synced(shown) && file.synced
    ensures Synced(shown + [Some(file)]) && Synced([Some(file)])
  {
  }

  datatype Op = Add(profile: ServerProfile) | Remove(id: string)

  predicate Applies(op: Op, m: Profiles) {
    op.Remove? ==> op.id in m
  }

  function Apply(op: Op, m: Profiles): Profiles {
    match op
    case Add(p) => m[p.profileId := p]
    case Remove(id) => m - {id}
  }

  /** What a call answers: failures are reported in the order they are met. */
  function Answer(op: Op, before: Result<(string, Profiles)>, unreadable: bool, writable: bool): Result<()> {
    if unreadable then Err(IoError)
    else if before.Err? then Err(before.error)
    else if !Applies(op, before.value.1) then Err(ProfileNotFound)
    else if !writable then Err(IoError)
    else Ok(())
  }

  /** One call by whoever opens the store with this password. */
  datatype Use = Use(password: string, op: Op, freshSalt: string)

  /** Whether a use is accepted on these contents. */
  predicate Accepted(slot: Slot, use: Use) {
    var state := Interpret(slot, use.password, use.freshSalt);
    use.password != "" && state.Ok? && Applies(use.op, state.value.1)
  }

  /** The file an accepted use means to leave. */
  function Written(slot: Slot, use: Use): Slot
    requires Accepted(slot, use)
  {
    var (salt, m) := Interpret(slot, use.password, use.freshSalt).value;
    Some(Sealed(use.password, salt, Apply(use.op, m)))
  }

  /** A history: which uses took effect, each of them accepted on what the earlier ones left. */
  ghost predicate History(start: Slot, uses: seq<Use>, effective: seq<bool>)
    decreases |uses|, 0
  {
    |effective| == |uses| &&
    (uses == [] ||
     var n := |uses| - 1;
     && History(start, uses[..n], effective[..n])
     && (effective[n] ==> Accepted(After(start, uses[..n], effective[..n]), uses[n])))
  }

  /** The file after those uses that took effect. */
  ghost function After(start: Slot, uses: seq<Use>, effective: seq<bool>): Slot
    requires History(start, uses, effective)
    decreases |uses|, 1
  {
    if uses == [] then start
    else
      var n := |uses| - 1;
      var before := After(start, uses[..n], effective[..n]);
      if effective[n] then Written(before, uses[n]) else before
  }

  /** The map after those uses that took effect. */
  function Replayed(m: Profiles, uses: seq<Use>, effective: seq<bool>): Profiles
    requires |effective| == |uses|
  {
    if uses == [] then m
    else
      var n := |uses| - 1;
      var before := Replayed(m, uses[..n], effective[..n]);
      if effective[n] then Apply(uses[n].op, before) else before
  }

  function IdOf(op: Op): string {
    match op case Add(p) => p.profileId case Remove(id) => id
  }

  /** In a replayed run an id holds what the last use of it that took effect left there. */
  lemma {:induction false} LastUseWins(m: Profiles, uses: seq<Use>, effective: seq<bool>, i: nat)
    requires |effective| == |uses| && i < |uses| && effective[i]
    requires forall j :: i < j < |uses| && effective[j] ==> IdOf(uses[j].op) != IdOf(uses[i].op)
    ensures var id, r := IdOf(uses[i].op), Replayed(m, uses, effective);
            match uses[i].op case Add(p) => id in r && r[id] == p case Remove(_) => id !in r
  {
    var n := |uses| - 1;
    if i < n { LastUseWins(m, uses[..n], effective[..n], i); }
  }

  lemma {:induction false} UntouchedStays(m: Profiles, uses: seq<Use>, effective: seq<bool>, id: string)
    requires |effective| == |uses|
    requires forall j :: 0 <= j < |uses| && effective[j] ==> IdOf(uses[j].op) != id
    ensures var r := Replayed(m, uses, effective); (id in r <==> id in m) && (id in m ==> r[id] == m[id])
  {
    if uses != [] {
      var n := |uses| - 1;
      UntouchedStays(m, uses[..n], effective[..n], id);
    }
  }

  /** A file stays with its password and its salt for good: every history of it is the map
      after some of the owner's uses, and nobody else's use ever takes effect. */
  lemma {:induction false} OwnedForGood(owner: string, salt: string, m: Profiles, uses: seq<Use>, effective: seq<bool>)
    requires History(Some(Sealed(owner, salt, m)), uses, effective)
    ensures After(Some(Sealed(owner, salt, m)), uses, effective) == Some(Sealed(owner, salt, Replayed(m, uses, effective)))
    ensures forall i :: 0 <= i < |uses| && effective[i] ==> uses[i].password == owner
  {
    if uses != [] {
      var n := |uses| - 1;
      OwnedForGood(owner, salt, m, uses[..n], effective[..n]);
      assert forall i :: 0 <= i < n ==> effective[..n][i] == effective[i] && uses[..n][i] == uses[i];
    }
  }

  /** A file that no password opens stays as it is: no use of any history takes effect. */
  lemma {:induction false} DamagedStays(start: Slot, uses: seq<Use>, effective: seq<bool>)
    requires History(start, uses, effective)
    requires start.Some? && (start.value.content.Garbage? || start.value.content.payload.NotMapping?)
    ensures After(start, uses, effective) == start && forall i :: 0 <= i < |uses| ==> !effective[i]
  {
    if uses != [] {
      var n := |uses| - 1;
      DamagedStays(start, uses[..n], effective[..n]);
      assert forall i :: 0 <= i < n ==> effective[..n][i] == effective[i];
    }
  }

  /** A missing file stays missing until the first use that takes effect, which must be an
      addition and gives the file its owner and its salt. */
  lemma {:induction false} FirstUseOwns(uses: seq<Use>, effective: seq<bool>, i: nat)
    requires History(None, uses, effective) && i <= |uses|
    requires forall j :: 0 <= j < i ==> !effective[j]
    ensures i == |uses| ==> After(None, uses, effective) == None
    ensures i < |uses| && effective[i] ==>
              && uses[i].op.Add?
              && After(None, uses, effective) == Some(Sealed(uses[i].password, uses[i].freshSalt, Replayed(map[], uses, effective)))
              && forall j :: 0 <= j < |uses| && effective[j] ==> uses[j].password == uses[i].password
  {
    if uses != [] {
      var n := |uses| - 1;
      assert forall j :: 0 <= j < n ==> effective[..n][j] == effective[j] && uses[..n][j] == uses[j];
      if i < n {
        FirstUseOwns(uses[..n], effective[..n], i);
      } else {
        FirstUseOwns(uses[..n], effective[..n], n);
        NothingReplayed(map[], uses[..n], effective[..n]);
      }
    }
  }

  lemma {:induction false} NothingReplayed(m: Profiles, uses: seq<Use>, effective: seq<bool>)
    requires |effective| == |uses| && forall j :: 0 <= j < |uses| ==> !effective[j]
    ensures Replayed(m, uses, effective) == m
  {
    if uses != [] { NothingReplayed(m, uses[..|uses| - 1], effective[..|uses| - 1]); }
  }

  /** What a slot shows is the file after the first k uses. */
  ghost predicate IsVersion(start: Slot, uses: seq<Use>, effective: seq<bool>, k: nat, slot: Slot) {
    && k <= |uses| == |effective|
    && History(start, uses[..k], effective[..k]) && slot == After(start, uses[..k], effective[..k])
  }

  /** Use i is accepted on what the uses before it left. */
  ghost predicate AcceptedAt(start: Slot, uses: seq<Use>, effective: seq<bool>, i: nat) {
    && i < |uses| && i <= |effective| && History(start, uses[..i], effective[..i])
    && Accepted(After(start, uses[..i], effective[..i]), uses[i])
  }

  /** Nothing fails from operation `from` on. */
  ghost predicate Calm(faults: nat -> bool, from: nat) {
    forall n: nat :: n >= from ==> !faults(n)
  }

  /** Whole runs over any uses, passwords and faults, from any contents on the medium.  The
      path shows the file after the uses that took effect; everything it has shown since the
      last directory sync is the file after some prefix of them; each reported success is in
      every such prefix.  So a power loss finds a whole file, and one with every success. */
  method RunStore(disk: Disk, uses: seq<Use>) returns (succeeded: seq<bool>, ghost effective: seq<bool>, ghost versions: seq<nat>)
    requires disk.Valid() && |disk.shown| == 1
    modifies disk
    ensures disk.Valid() && |succeeded| == |effective| == |uses| && |versions| == |disk.shown|
    ensures History(old(disk.target), uses, effective) && disk.target == After(old(disk.target), uses, effective)
    ensures forall j :: 0 <= j < |versions| ==> IsVersion(old(disk.target), uses, effective, versions[j], disk.shown[j])
    ensures forall i :: 0 <= i < |uses| && succeeded[i] ==> effective[i]
    ensures forall i, j :: 0 <= i < |uses| && succeeded[i] && 0 <= j < |versions| ==> i < versions[j]
    // Without faults exactly the accepted uses succeed.
    ensures Calm(disk.faults, old(disk.operations)) ==>
              forall i :: 0 <= i < |uses| ==> (succeeded[i] <==> AcceptedAt(old(disk.target), uses, effective, i))
    ensures forall found :: MayFind(disk.Now(), found) ==>
              exists j :: 0 <= j < |versions| && found == Exactly(disk.shown[j])
  {
    hide Written, Accepted, Synced, ShownAfter, Smooth, History, After, IsVersion, AcceptedAt;
    ghost var calm := Calm(disk.faults, disk.operations);
    ghost var start := disk.target;
    succeeded, effective, versions := [], [], [0];
    FirstVersion(start, uses);
    for n := 0 to |uses|
      invariant disk.Valid() && |succeeded| == |effective| == n && |versions| == |disk.shown|
      invariant History(start, uses[..n], effective) && disk.target == After(start, uses[..n], effective)
      invariant forall j :: 0 <= j < |versions| ==> IsVersion(start, uses[..n], effective, versions[j], disk.shown[j])
      invariant forall i :: 0 <= i < n && succeeded[i] ==> effective[i]
      invariant forall i, j :: 0 <= i < n && succeeded[i] && 0 <= j < |versions| ==> i < versions[j]
      invariant calm ==> Calm(disk.faults, disk.operations)
      invariant calm ==> forall i :: 0 <= i < n ==> (succeeded[i] <==> AcceptedAt(start, uses, effective, i))
    {
      ghost var shown, took := disk.shown, false;
      var ok;
      ok, took := UseStore(disk, uses[n]);
      NextVersions(start, uses, n, effective, took, versions, shown);
      AcceptedStays(start, uses, effective, took);
      if disk.shown == [disk.target] {
        versions := [n + 1];
      } else if took {
        versions := versions + [n + 1];
      }
      succeeded, effective := succeeded + [ok], effective + [took];
    }
    assert uses[..|uses|] == uses;
    forall found | MayFind(disk.Now(), found) ensures exists j :: 0 <= j < |versions| && found == Exactly(disk.shown[j]) {
      CrashFindsShown(disk.Now(), found);
    }
  }

  lemma AcceptedStays(start: Slot, uses: seq<Use>, effective: seq<bool>, took: bool)
    requires |effective| < |uses| && History(start, uses[..|effective|], effective)
    ensures forall i :: 0 <= i < |effective| ==>
              (AcceptedAt(start, uses, effective + [took], i) <==> AcceptedAt(start, uses, effective, i))
    ensures AcceptedAt(start, uses, effective + [took], |effective|) <==>
            Accepted(After(start, uses[..|effective|], effective), uses[|effective|])
  {
    hide Accepted, History, After;
    assert (effective + [took])[..|effective|] == effective;
    assert forall i :: 0 <= i < |effective| ==> (effective + [took])[..i] == effective[..i];
  }

  lemma FirstVersion(start: Slot, uses: seq<Use>)
    ensures History(start, uses[..0], []) && After(start, uses[..0], []) == start
    ensures IsVersion(start, uses[..0], [], 0, start)
  {
  }

  /** One more use: the earlier versions stay versions, and the new one is the whole history. */
  lemma NextVersions(start: Slot, uses: seq<Use>, n: nat, effective: seq<bool>, took: bool, versions: seq<nat>, shown: seq<Slot>)
    requires n < |uses| && History(start, uses[..n], effective) && |versions| == |shown|
    requires took ==> Accepted(After(start, uses[..n], effective), uses[n])
    requires forall j :: 0 <= j < |versions| ==> IsVersion(start, uses[..n], effective, versions[j], shown[j])
    ensures var before := After(start, uses[..n], effective);
            var after := if took then Written(before, uses[n]) else before;
            && History(start, uses[..n + 1], effective + [took]) && After(start, uses[..n + 1], effective + [took]) == after
            && IsVersion(start, uses[..n + 1], effective + [took], n + 1, after)
    ensures forall j :: 0 <= j < |versions| ==> IsVersion(start, uses[..n + 1], effective + [took], versions[j], shown[j])
  {
    hide Written, Accepted;
    var more, taken := uses[..n + 1], effective + [took];
    assert more[..n] == uses[..n] && taken[..n] == effective && more[..n + 1] == more && taken[..n + 1] == taken;
    forall j | 0 <= j < |versions| ensures IsVersion(start, more, taken, versions[j], shown[j]) {
      var k := versions[j];
      assert more[..k] == uses[..n][..k] && taken[..k] == effective[..k];
    }
  }

  /** One use: opening the store and one call. */
  method UseStore(disk: Disk, use: Use) returns (ok: bool, ghost took: bool)
    requires disk.Valid()
    modifies disk
    ensures disk.Valid() && (ok ==> took && disk.shown == [disk.target])
    ensures took ==> Accepted(old(disk.target), use) && disk.target == Written(old(disk.target), use)
    ensures took ==> disk.shown == old(disk.shown) + [disk.target] || disk.shown == [disk.target]
    ensures !took ==> disk.shown == old(disk.shown)
    ensures disk.operations >= old(disk.operations)
    ensures Calm(disk.faults, old(disk.operations)) ==> ok == Accepted(old(disk.target), use)
  {
    hide Synced;
    ok, took := false, false;
    var store := ProfileStore.Create(disk, use.password);
    if store != null {
      ghost var from := disk.operations + if disk.target.Some? then 1 else 0;
      took := Accepted(disk.target, use) && !(disk.target.Some? && disk.faults(disk.operations))
              && Smooth(disk.faults, from, SHOW_OPERATIONS);
      var r := store.Update(use.op, use.freshSalt);
      ok := r.Ok?;
    }
  }
}
