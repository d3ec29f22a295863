/** Stage b04 file system: a `File` with an open/closed state machine whose
    operations are guarded by state preconditions, and a `Directory` that
    keeps a set of child nodes. */
module Files {
  import opened Common

  /** A node of the file-system tree; only its identity matters here. */
  class Node {
    constructor ()
    {
    }
  }

  datatype FileState = Open | Closed | Deleted

  datatype FileOp = OpenOp | ReadOp | CloseOp

  /** One operation on a file in state `s`: the new state, or the
      InvalidState raised by a violated precondition. */
  function Next(s: FileState, op: FileOp): (r: Result<FileState>)
    ensures r.Err? ==> r.error == InvalidState
    ensures r.Ok? <==> (if op == OpenOp then s == Closed else s == Open)
  {
    match op
    case OpenOp => if s == Closed then Ok(Open) else Err(InvalidState)
    case ReadOp => if s == Open then Ok(Open) else Err(InvalidState)
    case CloseOp => if s == Open then Ok(Closed) else Err(InvalidState)
  }

  /** A sequence of operations; a rejected one leaves the state as it was. */
  function Run(s: FileState, ops: seq<FileOp>): FileState
    decreases |ops|
  {
    if ops == [] then s
    else
      var r := Next(s, ops[0]);
      Run(if r.Ok? then r.value else s, ops[1..])
  }

  /** No operation leads into `Deleted`: from a live state every run stays
      within `Open` and `Closed`. */
  lemma {:induction false} NeverDeleted(s: FileState, ops: seq<FileOp>)
    requires s != Deleted
    ensures Run(s, ops) != Deleted
    decreases |ops|
  {
    if ops != [] {
      var r := Next(s, ops[0]);
      NeverDeleted(if r.Ok? then r.value else s, ops[1..]);
    }
  }

  /** A deleted file stays deleted and rejects every operation. */
  lemma {:induction false} DeletedIsFinal(ops: seq<FileOp>)
    ensures Run(Deleted, ops) == Deleted
    decreases |ops|
  {
    if ops != [] {
      assert Next(Deleted, ops[0]).Err?;
      DeletedIsFinal(ops[1..]);
    }
  }

  /** Opening and then closing a closed file, with any number of reads in
      between, returns it to `Closed`. */
  lemma {:induction false} OpenReadsClose(k: nat)
    ensures Run(Closed, [OpenOp] + Reads(k) + [CloseOp]) == Closed
    decreases k
  {
    ReadsKeepOpen(k, [CloseOp]);
    assert ([OpenOp] + Reads(k) + [CloseOp])[1..] == Reads(k) + [CloseOp];
  }

  function Reads(k: nat): (r: seq<FileOp>)
    ensures |r| == k
  {
    if k == 0 then [] else [ReadOp] + Reads(k - 1)
  }

  lemma {:induction false} ReadsKeepOpen(k: nat, rest: seq<FileOp>)
    ensures Run(Open, Reads(k) + rest) == Run(Open, rest)
    decreases k
  {
    if k == 0 {
      assert Reads(k) + rest == rest;
    } else {
      var ops := Reads(k) + rest;
      assert ops[0] == ReadOp && ops[1..] == Reads(k - 1) + rest;
      assert Run(Open, ops) == Run(Open, ops[1..]);
      ReadsKeepOpen(k - 1, rest);
    }
  }

  /** Signed bytes, the elements of an `Int8Array`. */
  newtype Int8 = x: int | -128 <= x < 128

  class File {
    var state: FileState

    /** A new file starts closed. */
    constructor ()
      ensures state == Closed
    {
      state := Closed;
    }

    /** `open()`: requires `Closed`, moves to `Open`. */
    method OpenFile() returns (r: Outcome)
      modifies this
      ensures r.Pass? <==> Next(old(state), OpenOp).Ok?
      ensures r.Pass? ==> state == Next(old(state), OpenOp).value
      ensures r.Fail? ==> r.error == InvalidState && state == old(state)
    {
      if state != Closed {
        return Fail(InvalidState);
      }
      state := Open;
      r := Pass;
    }

    /** `read(noBytes)`: requires `Open`, changes nothing and yields no
        bytes. */
    method Read(noBytes: int) returns (r: Result<seq<Int8>>)
      ensures r.Ok? <==> Next(state, ReadOp).Ok?
      ensures r.Ok? ==> r.value == [] && Next(state, ReadOp).value == state
      ensures r.Err? ==> r.error == InvalidState
    {
      if state != Open {
        return Err(InvalidState);
      }
      r := Ok([]);
    }

    /** `close()`: requires `Open`, moves to `Closed`. */
    method CloseFile() returns (r: Outcome)
      modifies this
      ensures r.Pass? <==> Next(old(state), CloseOp).Ok?
      ensures r.Pass? ==> state == Next(old(state), CloseOp).value
      ensures r.Fail? ==> r.error == InvalidState && state == old(state)
    {
      if state != Open {
        return Fail(InvalidState);
      }
      state := Closed;
      r := Pass;
    }

    /** `doGetFileState()` */
    method GetFileState() returns (s: FileState)
      ensures s == state
    {
      s := state;
    }
  }

  /** A session on a new file: open, read, close, then a second close that
      is rejected. */
  method SessionScenario() returns (bytes: Result<seq<Int8>>, second: Outcome, last: FileState)
    ensures bytes == Ok([]) && second == Fail(InvalidState) && last == Closed
  {
    var f := new File();
    var opening := f.OpenFile();
    bytes := f.Read(16);
    var first := f.CloseFile();
    second := f.CloseFile();
    last := f.GetFileState();
  }

  class Directory {
    var childNodes: set<Node>

    /** A new directory has no children. */
    constructor ()
      ensures childNodes == {}
    {
      childNodes := {};
    }

    /** `hasChildNode(cn)`: membership; `null` is never a child. */
    method HasChildNode(cn: Node?) returns (b: bool)
      ensures b <==> cn != null && cn in childNodes
    {
      b := cn != null && cn in childNodes;
    }

    /** `addChildNode(cn)`: IllegalArgument for `null`, otherwise `cn` is
        added to the set (adding a present child changes nothing). */
    method AddChildNode(cn: Node?) returns (r: Outcome)
      modifies this
      ensures cn == null ==> r == Fail(IllegalArgument) && childNodes == old(childNodes)
      ensures cn != null ==> r == Pass && childNodes == old(childNodes) + {cn}
      ensures cn != null ==> cn in childNodes && old(childNodes) <= childNodes
    {
      if cn == null {
        return Fail(IllegalArgument);
      }
      childNodes := childNodes + {cn};
      r := Pass;
    }

    /** `removeChildNode(cn)`: IllegalArgument for `null` or a node that is
        not a child, the set untouched; otherwise exactly `cn` leaves. */
    method RemoveChildNode(cn: Node?) returns (r: Outcome)
      modifies this
      ensures r.Pass? <==> cn != null && cn in old(childNodes)
      ensures r.Fail? ==> r.error == IllegalArgument && childNodes == old(childNodes)
      ensures r.Pass? ==> childNodes == old(childNodes) - {cn}
      ensures r.Pass? ==> cn !in childNodes && forall n :: n in old(childNodes) && n != cn ==> n in childNodes
    {
      if cn == null {
        return Fail(IllegalArgument);
      }
      if cn !in childNodes {
        return Fail(IllegalArgument);
      }
      childNodes := childNodes - {cn};
      r := Pass;
    }
  }

  /** Adding a child twice leaves the same set as adding it once, and
      removing it afterwards restores the empty directory; a second
      removal is rejected. */
  method ChildScenario() returns (twice: set<Node>, secondRemoval: Outcome, after: set<Node>)
    ensures |twice| == 1
    ensures secondRemoval == Fail(IllegalArgument) && after == {}
  {
    var dir := new Directory();
    var n := new Node();
    var first := dir.AddChildNode(n);
    var again := dir.AddChildNode(n);
    twice := dir.childNodes;
    assert twice == {n};
    var removed := dir.RemoveChildNode(n);
    secondRemoval := dir.RemoveChildNode(n);
    after := dir.childNodes;
  }
}
