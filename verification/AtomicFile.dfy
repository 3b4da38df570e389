/**
 Replacing a file as a whole: a temporary one is written and flushed, renamed
 over the path, and the directory flushed. Each step can fail, and the power can
 go between any two; what the path can then be read as is what is proved here.
 */
module AtomicFile {
  import opened Wrappers

  /** How a write can end: a failed one may still have replaced the contents. */
  datatype WriteFate = Durable | FailedKeepingOld | FailedLeavingNew

  /** The steps that can fail, in order. */
  datatype Part = MakeDir | CreateTemp | Chmod | Write | Sync | Close | Rename | SyncDir

  /** A file: its text, and whether that has been flushed. */
  datatype File = File(text: string, flushed: bool)

  /** What reading the path gives. After a power cut a file never flushed can come back as anything. */
  datatype Found = Absent | Whole(text: string) | Torn

  class Directory {
    var files: seq<File>
    /** The file the path names. */
    var entry: Option<nat>
    /** The files it may name after a power cut: what it named when the directory was last flushed, or since. */
    ghost var kept: set<Option<nat>>
    /** All that a power cut could have left, over every moment so far. */
    ghost var history: set<Found>

    ghost function FoundAt(e: Option<nat>): Found
      reads this
    {
      if e.None? then Absent else if e.value < |files| && files[e.value].flushed then Whole(files[e.value].text) else Torn
    }

    /** What a power cut now could leave. */
    ghost function Left(): set<Found>
      reads this
    {
      set e | e in kept :: FoundAt(e)
    }

    ghost function Read(): Found
      reads this
    {
      FoundAt(entry)
    }

    ghost predicate Valid()
      reads this
    {
      entry in kept && Torn !in Left()
    }

    constructor ()
      ensures Valid() && Read() == Absent && Left() == {Absent} && history == {Absent}
    {
      files, entry := [], None;
      kept, history := {None}, {Absent};
    }

    lemma KeptIsThere(e: Option<nat>)
      requires Valid() && e in kept
      ensures e.Some? ==> e.value < |files|
    {
      assert FoundAt(e) in Left();
    }

    /** A new temporary file, or new contents for one: nothing the path may name. */
    method Put(temp: nat, f: File)
      requires Valid() && temp <= |files| && Some(temp) !in kept
      modifies this
      ensures Valid() && entry == old(entry) && kept == old(kept) && Left() == old(Left()) && Read() == old(Read())
      ensures temp < |files| && files[temp] == f
      ensures history == old(history) + Left()
    {
      ghost var before := Left();
      forall e | e in kept ensures FoundAt(e) != Torn {
        assert FoundAt(e) in before;
      }
      files := if temp < |files| then files[temp := f] else files + [f];
      assert forall e :: e in kept ==> FoundAt(e) == old(FoundAt(e));
      history := history + Left();
    }

    /** rename, and what a flush of the directory then settles. */
    method Place(temp: nat, flushed: bool)
      requires Valid() && temp < |files| && files[temp].flushed
      modifies this
      ensures Valid() && files == old(files) && Read() == Whole(files[temp].text)
      ensures Left() == (if flushed then {} else old(Left())) + {Whole(files[temp].text)}
      ensures history <= old(history) + old(Left()) + {Whole(files[temp].text)}
    {
      entry, kept := Some(temp), kept + {Some(temp)};
      assert Left() == old(Left()) + {Whole(files[temp].text)};
      history := history + Left();
      if flushed {
        kept := {entry};
        history := history + Left();
      }
    }

    /**
     WriteFile, where fails says which step fails and torn what a failed write
     wrote. Success makes the new text all there is to find; failure leaves what
     there was, and the new text beside it if only the directory's flush failed.
     At no moment could a power cut have left anything else.
     */
    method WriteFile(b: string, fails: Option<Part>, torn: string) returns (fate: WriteFate)
      requires Valid()
      modifies this
      ensures Valid()
      ensures fate.Durable? <==> fails.None?
      ensures fate.Durable? ==> Read() == Whole(b) && Left() == {Whole(b)}
      ensures fate.FailedKeepingOld? ==> Read() == old(Read()) && Left() == old(Left())
      ensures fate.FailedLeavingNew? ==> Read() == Whole(b) && Left() == old(Left()) + {Whole(b)}
      ensures history <= old(history) + old(Left()) + {Whole(b)}
    {
      if fails == Some(MakeDir) || fails == Some(CreateTemp) {
        return FailedKeepingOld;
      }
      var temp := |files|;
      forall e | e in kept ensures e != Some(temp) {
        KeptIsThere(e);
      }
      Put(temp, File("", false));
      if fails == Some(Chmod) {
        return FailedKeepingOld;
      }
      Put(temp, File(if fails == Some(Write) then torn else b, false));
      if fails == Some(Write) || fails == Some(Sync) {
        return FailedKeepingOld;
      }
      Put(temp, File(b, true));
      if fails == Some(Close) || fails == Some(Rename) {
        return FailedKeepingOld;
      }
      assert fails.None? || fails.value.SyncDir?;
      Place(temp, fails != Some(SyncDir));
      return if fails == Some(SyncDir) then FailedLeavingNew else Durable;
    }
  }
}
