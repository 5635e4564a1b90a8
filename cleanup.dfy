/**
 * One pass of `cleanup_old_files` of server.py over the generated-audio
 * directory: every `.mp3` file last modified more than `FileExpiryTime`
 * seconds before `now` is deleted, and the deletions are counted. The
 * directory is a map from file name to modification time in whole seconds;
 * the clock reading is a parameter.
 */
module Cleanup {

  /** `FILE_EXPIRY_TIME`: one hour. */
  const FileExpiryTime: int := 3600

  /** The glob "*.mp3": any name, hidden ones included, that ends in ".mp3". */
  predicate IsMp3(name: string) {
    |name| >= 4 && name[|name| - 4..] == ".mp3"
  }

  /**
   * A file modified strictly before the cutoff `now - FileExpiryTime` is
   * expired: its age is more than the expiry time.
   */
  function Expired(mtime: int, now: int): (b: bool)
    ensures b <==> now - mtime > FileExpiryTime
  {
    mtime < now - FileExpiryTime
  }

  /** A name matches "*.mp3" exactly when it is some stem, possibly empty, followed by ".mp3". */
  lemma Mp3Glob(name: string)
    ensures IsMp3(name) <==> exists stem: string :: name == stem + ".mp3"
  {
    if IsMp3(name) {
      assert name == name[..|name| - 4] + ".mp3";
    }
  }

  /** The files one pass deletes. */
  function ExpiredNames(files: map<string, int>, now: int): (e: set<string>)
    ensures e <= files.Keys
  {
    set name | name in files && IsMp3(name) && Expired(files[name], now)
  }

  /** The directory after one pass: every file that is not an expired `.mp3` file, with its time. */
  function Swept(files: map<string, int>, now: int): (r: map<string, int>)
    ensures forall name :: name in r <==> name in files && !(IsMp3(name) && Expired(files[name], now))
    ensures forall name | name in r :: r[name] == files[name]
  {
    map name | name in files && !(IsMp3(name) && Expired(files[name], now)) :: files[name]
  }

  /** The swept directory is the old one with the expired files taken out. */
  lemma SweptIsRemoval(files: map<string, int>, now: int)
    ensures Swept(files, now) == files - ExpiredNames(files, now)
  {
    var r := Swept(files, now);
    var d := files - ExpiredNames(files, now);
    assert r.Keys == d.Keys;
    assert forall name | name in r :: r[name] == d[name];
  }

  /** The names the glob "*.mp3" lists. */
  function Mp3Names(files: map<string, int>): (names: set<string>)
    ensures names <= files.Keys
    ensures forall now :: ExpiredNames(files, now) <= names
  {
    set name | name in files && IsMp3(name)
  }

  /** Removing names one more at a time is removing them all at once. */
  lemma RemoveMore(files: map<string, int>, removed: set<string>, name: string)
    ensures (files - removed) - {name} == files - (removed + {name})
  {
  }

  /** Visiting one pending name keeps the loop's account of what has been removed. */
  lemma VisitStep(expired: set<string>, pending: set<string>, name: string, before: set<string>, after: set<string>)
    requires name in pending && before == expired - pending
    requires after == if name in expired then before + {name} else before
    ensures after == expired - (pending - {name})
    ensures name in expired ==> name !in before && |after| == |before| + 1
  {
  }

  /** A pass removes exactly the expired `.mp3` files, so the file count drops by their number. */
  lemma SweptCount(files: map<string, int>, now: int)
    ensures Swept(files, now).Keys == files.Keys - ExpiredNames(files, now)
    ensures |Swept(files, now).Keys| == |files.Keys| - |ExpiredNames(files, now)|
  {
    var e := ExpiredNames(files, now);
    assert Swept(files, now).Keys == files.Keys - e;
    assert files.Keys == (files.Keys - e) + e;
  }

  /** A second pass at the same moment deletes nothing. */
  lemma SweptIdempotent(files: map<string, int>, now: int)
    ensures ExpiredNames(Swept(files, now), now) == {}
    ensures Swept(Swept(files, now), now) == Swept(files, now)
  {
  }

  /** A file exactly one hour old is kept; one a second older is deleted; no other kind of file is touched. */
  lemma CutoffBoundary(name: string, now: int)
    ensures IsMp3(name) ==> name !in ExpiredNames(map[name := now - 3600], now)
    ensures IsMp3(name) ==> name in ExpiredNames(map[name := now - 3601], now)
    ensures forall t: int :: !IsMp3(name) ==> Swept(map[name := t], now) == map[name := t]
  {
  }

  /** The generated-audio directory. */
  class AudioDir {
    /** Each file's name and its modification time. */
    var files: map<string, int>

    constructor(files0: map<string, int>)
      ensures files == files0
    {
      files := files0;
    }

    /**
     * One pass of the sweep at time `now`: visits every `.mp3` file, deletes
     * it when it is expired, and returns how many were deleted.
     */
    method SweepPass(now: int) returns (deleted: nat)
      modifies this
      ensures files == Swept(old(files), now)
      ensures deleted == |ExpiredNames(old(files), now)|
      ensures deleted == |old(files).Keys| - |files.Keys|
    {
      ghost var expired := ExpiredNames(files, now);
      ghost var removed: set<string> := {};
      var pending := Mp3Names(files);
      deleted := 0;
      while pending != {}
        invariant pending <= Mp3Names(old(files))
        invariant removed == expired - pending
        invariant files == old(files) - removed
        invariant deleted == |removed|
        decreases |pending|
      {
        var name :| name in pending;
        ghost var before := removed;
        assert name in files && files[name] == old(files)[name];
        assert name in expired <==> files[name] < now - FileExpiryTime;
        if files[name] < now - FileExpiryTime {
          RemoveMore(old(files), removed, name);
          files := files - {name};
          removed := removed + {name};
          deleted := deleted + 1;
        }
        VisitStep(expired, pending, name, before, removed);
        pending := pending - {name};
      }
      SweptIsRemoval(old(files), now);
      SweptCount(old(files), now);
    }
  }
}
