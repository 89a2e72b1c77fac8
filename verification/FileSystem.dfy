/** A file system that other processes and faults may disturb at every operation. */
module FileSystem {

  type Bytes = seq<bv8>

  /** Whether the running attempt created the file, and what it holds. */
  datatype File = File(mine: bool, content: Bytes)

  type Files = map<string, File>

  /** What may go wrong with an operation: it is refused, it stops part way, or its file vanished before it. */
  datatype Fault = NoFault | Refused | StopsAfter(count: nat) | Vanished

  /** One turn of the environment: files other processes create, and the fault of the operation that follows. */
  datatype Turn = Turn(arrivals: map<string, Bytes>, fault: Fault)

  datatype OpenStatus = Opened | AlreadyExists | OpenRefused

  datatype RemoveStatus = Removed | RemoveRefused | NotExist

  /** Other processes create files at free names only. */
  function Arrived(files: Files, arrivals: map<string, Bytes>): Files {
    files + map name | name in arrivals && name !in files :: File(false, arrivals[name])
  }

  /** No file of somebody else has been changed or removed. */
  ghost predicate OthersKept(before: Files, after: Files) {
    forall name :: name in before && !before[name].mine ==> name in after && after[name] == before[name]
  }

  ghost function Mine(files: Files): set<string> {
    set name | name in files && files[name].mine
  }

  /** Nobody else creates files. */
  ghost predicate Quiet(script: seq<Turn>) {
    forall i :: 0 <= i < |script| ==> script[i].arrivals == map[]
  }

  lemma ArrivalsAreForeign(files: Files, arrivals: map<string, Bytes>)
    ensures Mine(Arrived(files, arrivals)) == Mine(files) && OthersKept(files, Arrived(files, arrivals))
    ensures arrivals == map[] ==> Arrived(files, arrivals) == files
    ensures forall name :: name in files ==> name in Arrived(files, arrivals) && Arrived(files, arrivals)[name] == files[name]
  {
  }

  class Directory {
    var files: Files
    /** The turns still to come; when they run out, nothing disturbs the directory any more. */
    var script: seq<Turn>

    method NextTurn() returns (fault: Fault)
      modifies this
      ensures OthersKept(old(files), files) && Mine(files) == Mine(old(files))
      ensures forall name :: name in old(files) ==> name in files && files[name] == old(files)[name]
      ensures Quiet(old(script)) ==> files == old(files) && Quiet(script)
      ensures script == if old(script) == [] then [] else old(script)[1..]
      ensures old(script) == [] ==> fault == NoFault
    {
      if script == [] {
        return NoFault;
      }
      ArrivalsAreForeign(files, script[0].arrivals);
      files := Arrived(files, script[0].arrivals);
      fault := script[0].fault;
      script := script[1..];
    }

    /** Creates a file that must not exist yet. */
    method CreateNew(name: string) returns (status: OpenStatus)
      modifies this
      ensures OthersKept(old(files), files)
      ensures Mine(files) == if status.Opened? then Mine(old(files)) + {name} else Mine(old(files))
      ensures forall other :: other in old(files) ==> other in files && files[other] == old(files)[other]
      ensures status.Opened? ==> name !in old(files) && name in files && files[name] == File(true, [])
      ensures status.AlreadyExists? ==> name in files
      ensures Quiet(old(script)) ==> Quiet(script) && files == if status.Opened? then old(files)[name := File(true, [])] else old(files)
      ensures |script| < |old(script)| || script == old(script) == []
      ensures old(script) == [] ==> !status.OpenRefused?
    {
      var fault := NextTurn();
      if fault != NoFault {
        return OpenRefused;
      }
      if name in files {
        return AlreadyExists;
      }
      files := files[name := File(true, [])];
      return Opened;
    }

    /** Writes to an open file of this attempt; a failed write may leave a part of the content. */
    method Write(name: string, content: Bytes) returns (ok: bool)
      requires name in files && files[name].mine
      modifies this
      ensures OthersKept(old(files), files) && Mine(files) == Mine(old(files))
      ensures forall other :: other in old(files) && other != name ==> other in files && files[other] == old(files)[other]
      ensures name in files && files[name].mine && (ok ==> files[name] == File(true, content))
      ensures Quiet(old(script)) ==> Quiet(script) && files.Keys == old(files).Keys
      ensures old(script) == [] ==> ok && script == []
    {
      var fault := NextTurn();
      if fault == NoFault {
        files := files[name := File(true, content)];
        return true;
      }
      if fault.StopsAfter? && fault.count < |content| {
        files := files[name := File(true, content[..fault.count])];
      }
      return false;
    }

    /** Flushes or closes an open file of this attempt. */
    method SyncOrClose(name: string) returns (ok: bool)
      modifies this
      ensures OthersKept(old(files), files) && Mine(files) == Mine(old(files))
      ensures forall other :: other in old(files) ==> other in files && files[other] == old(files)[other]
      ensures Quiet(old(script)) ==> Quiet(script) && files == old(files)
      ensures old(script) == [] ==> ok && script == []
      ensures |script| <= |old(script)|
    {
      var fault := NextTurn();
      ok := fault == NoFault;
    }

    /** Removes a file of this attempt. */
    method Remove(name: string) returns (status: RemoveStatus)
      requires name in files && files[name].mine
      modifies this
      ensures OthersKept(old(files), files)
      ensures Mine(files) == if status.RemoveRefused? then Mine(old(files)) else Mine(old(files)) - {name}
      ensures forall other :: other in old(files) && other != name ==> other in files && files[other] == old(files)[other]
      ensures status.RemoveRefused? ==> name in files && files[name] == old(files)[name]
      ensures status.Removed? ==> name !in files
      ensures Quiet(old(script)) ==> Quiet(script) && files == if status.RemoveRefused? then old(files) else old(files) - {name}
      ensures old(script) == [] ==> status.Removed? && script == []
      ensures |script| <= |old(script)|
    {
      var fault := NextTurn();
      if fault == Vanished {
        files := files - {name};
        return NotExist;
      }
      if fault != NoFault {
        return RemoveRefused;
      }
      files := files - {name};
      return Removed;
    }
  }
}
