/** The table of open handles, each with its interface and its output buffer. */
module HandleTable {
  import opened Results

  /** HandleUnit; an interface is known by its address. */
  datatype HandleUnit = HandleUnit(handleId: int, rfidPtr: nat, buffer: string)

  datatype Event =
    | Added(id: int, rfid: nat)
    | Removed(id: int)
    | Appended(id: int, data: string)
    | Cleared(id: int)

  /** The data appended to a handle since its last clear, or since it was added. */
  function SinceClear(log: seq<Event>, id: int): string {
    if log == [] then "" else
      var before := SinceClear(log[..|log| - 1], id);
      match log[|log| - 1]
      case Added(i, _) => if i == id then "" else before
      case Removed(_) => before
      case Appended(i, data) => if i == id then before + data else before
      case Cleared(i) => if i == id then "" else before
  }

  /** The handle has been added and not removed since. */
  predicate Live(log: seq<Event>, id: int, rfid: nat) {
    if log == [] then false else
      match log[|log| - 1]
      case Added(i, r) => (i == id && r == rfid) || Live(log[..|log| - 1], id, rfid)
      case Removed(i) => i != id && Live(log[..|log| - 1], id, rfid)
      case _ => Live(log[..|log| - 1], id, rfid)
  }

  ghost predicate IsOpen(log: seq<Event>, id: int) {
    exists rfid: nat :: Live(log, id, rfid)
  }

  ghost predicate HasHandle(log: seq<Event>, rfid: nat) {
    exists id :: Live(log, id, rfid)
  }

  /** How often an id has been given out. */
  function Issued(log: seq<Event>, id: int): nat {
    if log == [] then 0 else
      Issued(log[..|log| - 1], id) + if log[|log| - 1].Added? && log[|log| - 1].id == id then 1 else 0
  }

  lemma LogStep(log: seq<Event>, e: Event)
    ensures forall id: int, rfid: nat ::
      Live(log + [e], id, rfid) <==>
        match e
        case Added(i, r) => (i == id && r == rfid) || Live(log, id, rfid)
        case Removed(i) => i != id && Live(log, id, rfid)
        case _ => Live(log, id, rfid)
    ensures forall id: int ::
      SinceClear(log + [e], id) ==
        match e
        case Added(i, _) => if i == id then "" else SinceClear(log, id)
        case Removed(_) => SinceClear(log, id)
        case Appended(i, data) => if i == id then SinceClear(log, id) + data else SinceClear(log, id)
        case Cleared(i) => if i == id then "" else SinceClear(log, id)
    ensures forall id: int :: Issued(log + [e], id) == Issued(log, id) + if e.Added? && e.id == id then 1 else 0
  {
    assert (log + [e])[..|log|] == log;
  }

  predicate IsAt(handles: seq<HandleUnit>, i: nat, id: int, rfid: nat) {
    i < |handles| && handles[i].handleId == id && handles[i].rfidPtr == rfid
  }

  /** The table is what its history says: a handle is in it exactly when it was added and not removed,
      with the data appended since its last clear as its buffer; no id was ever given out twice; and no
      two live handles share an id or an interface. */
  ghost predicate IsTable(handles: seq<HandleUnit>, flowCount: nat, log: seq<Event>) {
    && (forall i, j | 0 <= i < j < |handles| ::
          handles[i].handleId != handles[j].handleId && handles[i].rfidPtr != handles[j].rfidPtr)
    && (forall i | 0 <= i < |handles| ::
          && 0 <= handles[i].handleId < flowCount
          && Live(log, handles[i].handleId, handles[i].rfidPtr)
          && handles[i].buffer == SinceClear(log, handles[i].handleId))
    && (forall id: int, rfid: nat | Live(log, id, rfid) :: exists i: nat :: IsAt(handles, i, id, rfid))
    && (forall id: int :: Issued(log, id) == if 0 <= id < flowCount then 1 else 0)
  }

  lemma EmptyTable()
    ensures IsTable([], 0, [])
  {
  }

  lemma AddKeeps(handles: seq<HandleUnit>, flowCount: nat, log: seq<Event>, rfid: nat)
    requires IsTable(handles, flowCount, log)
    requires forall i | 0 <= i < |handles| :: handles[i].rfidPtr != rfid
    ensures IsTable(handles + [HandleUnit(flowCount, rfid, "")], flowCount + 1, log + [Added(flowCount, rfid)])
    ensures Issued(log, flowCount) == 0
  {
    hide Live, SinceClear, Issued;
    var next, all := handles + [HandleUnit(flowCount, rfid, "")], log + [Added(flowCount, rfid)];
    LogStep(log, Added(flowCount, rfid));
    forall id: int, r: nat | Live(all, id, r) ensures exists i: nat :: IsAt(next, i, id, r) {
      if Live(log, id, r) {
        var i: nat :| IsAt(handles, i, id, r);
        assert IsAt(next, i, id, r);
      } else {
        assert IsAt(next, |handles|, id, r);
      }
    }
  }

  lemma RemoveKeeps(handles: seq<HandleUnit>, flowCount: nat, log: seq<Event>, k: nat)
    requires IsTable(handles, flowCount, log) && k < |handles|
    ensures IsTable(handles[..k] + handles[k + 1..], flowCount, log + [Removed(handles[k].handleId)])
  {
    hide Live, SinceClear, Issued;
    var next, e := handles[..k] + handles[k + 1..], Removed(handles[k].handleId);
    LogStep(log, e);
    assert forall i | 0 <= i < k :: next[i] == handles[i];
    assert forall i | k <= i < |next| :: next[i] == handles[i + 1];
    forall id: int, r: nat | Live(log + [e], id, r) ensures exists i: nat :: IsAt(next, i, id, r) {
      var i: nat :| IsAt(handles, i, id, r);
      assert IsAt(next, if i < k then i else i - 1, id, r);
    }
  }

  /** Writing the buffer of one handle leaves every other handle as it was. */
  lemma WriteKeeps(handles: seq<HandleUnit>, flowCount: nat, log: seq<Event>, k: nat, e: Event)
    requires IsTable(handles, flowCount, log) && k < |handles|
    requires (e.Appended? || e.Cleared?) && e.id == handles[k].handleId
    ensures IsTable(handles[k := handles[k].(buffer := if e.Appended? then handles[k].buffer + e.data else "")],
                    flowCount, log + [e])
  {
    hide Live, SinceClear, Issued;
    var next := handles[k := handles[k].(buffer := if e.Appended? then handles[k].buffer + e.data else "")];
    LogStep(log, e);
    forall id: int, r: nat | Live(log + [e], id, r) ensures exists i: nat :: IsAt(next, i, id, r) {
      var i: nat :| IsAt(handles, i, id, r);
      assert IsAt(next, i, id, r);
    }
  }

  /** A search that stopped at `iter` found the handle exactly if it is open. */
  lemma OpenIffFound(handles: seq<HandleUnit>, flowCount: nat, log: seq<Event>, id: int, iter: nat)
    requires IsTable(handles, flowCount, log)
    requires iter <= |handles| && (iter < |handles| ==> handles[iter].handleId == id)
    requires forall j | 0 <= j < iter :: handles[j].handleId != id
    ensures IsOpen(log, id) <==> iter < |handles|
  {
    hide Live, SinceClear, Issued;
    if iter < |handles| {
      assert Live(log, id, handles[iter].rfidPtr);
    }
  }

  lemma HandleIffFound(handles: seq<HandleUnit>, flowCount: nat, log: seq<Event>, rfid: nat, iter: nat)
    requires IsTable(handles, flowCount, log)
    requires iter <= |handles| && (iter < |handles| ==> handles[iter].rfidPtr == rfid)
    requires forall j | 0 <= j < iter :: handles[j].rfidPtr != rfid
    ensures HasHandle(log, rfid) <==> iter < |handles|
    ensures iter < |handles| ==> Live(log, handles[iter].handleId, rfid)
  {
    hide Live, SinceClear, Issued;
    if iter < |handles| {
      assert Live(log, handles[iter].handleId, rfid);
    }
  }

  /** Handle and interface determine each other, and an id names one handle for ever. */
  lemma HandlesAreUnique(handles: seq<HandleUnit>, flowCount: nat, log: seq<Event>, a: int, p: nat, b: int, q: nat)
    requires IsTable(handles, flowCount, log) && Live(log, a, p) && Live(log, b, q)
    ensures a == b <==> p == q
    ensures Issued(log, a) == 1
  {
    hide Live, SinceClear, Issued;
  }

  class HandleManager {
    var handles: seq<HandleUnit>
    var flowCount: nat
    ghost var log: seq<Event> // what has been done to the table, oldest first

    ghost predicate Valid()
      reads this
    {
      IsTable(handles, flowCount, log)
    }

    constructor ()
      ensures Valid() && handles == [] && log == []
    {
      handles, flowCount, log := [], 0, [];
      EmptyTable();
    }

    /** find_handle: the place of the handle, the number of handles if there is none. */
    method FindHandle(handleId: int) returns (iter: nat)
      ensures iter <= |handles|
      ensures iter < |handles| ==> handles[iter].handleId == handleId
      ensures forall j | 0 <= j < iter :: handles[j].handleId != handleId
    {
      iter := 0;
      while iter < |handles| && handles[iter].handleId != handleId
        invariant iter <= |handles|
        invariant forall j | 0 <= j < iter :: handles[j].handleId != handleId
      {
        iter := iter + 1;
      }
    }

    /** find_rfid_ptr. */
    method FindRfidPtr(rfidPtr: nat) returns (iter: nat)
      ensures iter <= |handles|
      ensures iter < |handles| ==> handles[iter].rfidPtr == rfidPtr
      ensures forall j | 0 <= j < iter :: handles[j].rfidPtr != rfidPtr
    {
      iter := 0;
      while iter < |handles| && handles[iter].rfidPtr != rfidPtr
        invariant iter <= |handles|
        invariant forall j | 0 <= j < iter :: handles[j].rfidPtr != rfidPtr
      {
        iter := iter + 1;
      }
    }

    /** is_valid_handle. */
    method IsValidHandle(handleId: int) returns (valid: bool)
      requires Valid()
      ensures valid <==> IsOpen(log, handleId)
    {
      hide IsTable, Live, SinceClear, Issued, IsOpen, HasHandle;
      var iter := FindHandle(handleId);
      valid := iter != |handles|;
      OpenIffFound(handles, flowCount, log, handleId, iter);
    }

    /** get_data: the buffer of the handle, none for an invalid one. */
    method GetData(handleId: int) returns (data: Option<string>)
      requires Valid()
      ensures data.Some? <==> IsOpen(log, handleId)
      ensures data.Some? ==> data.value == SinceClear(log, handleId)
    {
      hide Live, SinceClear, Issued, IsOpen;
      var iter := FindHandle(handleId);
      OpenIffFound(handles, flowCount, log, handleId, iter);
      if iter == |handles| {
        return None;
      }
      return Some(handles[iter].buffer);
    }

    /** add_handle_unit: the handle of an interface that is open already, a new one otherwise. */
    method AddHandleUnit(rfidPtr: nat) returns (id: int)
      requires Valid()
      modifies this
      ensures Valid()
      ensures if HasHandle(old(log), rfidPtr)
              then Live(old(log), id, rfidPtr) && log == old(log) && handles == old(handles)
              else log == old(log) + [Added(id, rfidPtr)] && Issued(old(log), id) == 0
    {
      hide IsTable, Live, SinceClear, Issued, IsOpen, HasHandle;
      var iter := FindRfidPtr(rfidPtr);
      HandleIffFound(handles, flowCount, log, rfidPtr, iter);
      if iter != |handles| {
        return handles[iter].handleId;
      }
      AddKeeps(handles, flowCount, log, rfidPtr);
      id := flowCount;
      flowCount := flowCount + 1;
      handles := handles + [HandleUnit(id, rfidPtr, "")];
      log := log + [Added(id, rfidPtr)];
    }

    /** remove_handle_unit; an invalid handle is only logged. */
    method RemoveHandleUnit(handleId: int)
      requires Valid()
      modifies this
      ensures Valid()
      ensures log == if IsOpen(old(log), handleId)
                     then old(log) + [Removed(handleId)] else old(log)
      ensures flowCount == old(flowCount)
    {
      hide IsTable, Live, SinceClear, Issued, IsOpen, HasHandle;
      var iter := FindHandle(handleId);
      OpenIffFound(handles, flowCount, log, handleId, iter);
      if iter != |handles| {
        RemoveKeeps(handles, flowCount, log, iter);
        handles := handles[..iter] + handles[iter + 1..];
        log := log + [Removed(handleId)];
      }
    }

    /** append_data. */
    method AppendData(handleId: int, data: string)
      requires Valid()
      modifies this
      ensures Valid()
      ensures log == if IsOpen(old(log), handleId)
                     then old(log) + [Appended(handleId, data)] else old(log)
      ensures flowCount == old(flowCount)
    {
      hide IsTable, Live, SinceClear, Issued, IsOpen, HasHandle;
      var iter := FindHandle(handleId);
      OpenIffFound(handles, flowCount, log, handleId, iter);
      if iter != |handles| {
        WriteKeeps(handles, flowCount, log, iter, Appended(handleId, data));
        handles := handles[iter := handles[iter].(buffer := handles[iter].buffer + data)];
        log := log + [Appended(handleId, data)];
      }
    }

    /** clear_buffer. */
    method ClearBuffer(handleId: int)
      requires Valid()
      modifies this
      ensures Valid()
      ensures log == if IsOpen(old(log), handleId)
                     then old(log) + [Cleared(handleId)] else old(log)
      ensures flowCount == old(flowCount)
    {
      hide IsTable, Live, SinceClear, Issued, IsOpen, HasHandle;
      var iter := FindHandle(handleId);
      OpenIffFound(handles, flowCount, log, handleId, iter);
      if iter != |handles| {
        WriteKeeps(handles, flowCount, log, iter, Cleared(handleId));
        handles := handles[iter := handles[iter].(buffer := "")];
        log := log + [Cleared(handleId)];
      }
    }
  }
}
