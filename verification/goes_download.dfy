/** The download loop of the GOES script: each listed blob is written to its
    target path in the local folder unless that path already exists. The local
    filesystem is a set of existing paths; the bucket listing is the sequence of
    keys it returns, in order. */
module GoesDownload {
  import opened PyStr
  import opened GoesPaths

  /** What one pass over a listing does to a set of existing paths: the paths
      that exist afterwards, the paths written, in order, and whether the pass
      stopped on a key without `/`. */
  datatype Run = Run(files: set<string>, written: seq<string>, failed: bool)

  /** The pass as a function. A key without `/` stops it with an index error;
      what was written before stays written. */
  function Replay(files: set<string>, keys: seq<string>, filepath: string): (r: Run)
    ensures files <= r.files
    decreases |keys|
  {
    if keys == [] then Run(files, [], false)
    else match Basename(keys[0])
      case None => Run(files, [], true)
      case Some(name) =>
        var path := TargetPath(filepath, name);
        if path in files then Replay(files, keys[1..], filepath)
        else
          var rest := Replay(files + {path}, keys[1..], filepath);
          Run(rest.files, [path] + rest.written, rest.failed)
  }

  /** A sequence without repetitions. */
  ghost predicate Distinct(s: seq<string>)
  {
    forall i, j :: 0 <= i < j < |s| ==> s[i] != s[j]
  }

  /** Nothing is overwritten: every written path was absent before the pass,
      and the paths afterwards are those before plus those written. */
  lemma {:induction false} ReplayNoOverwrite(files: set<string>, keys: seq<string>, filepath: string)
    ensures var r := Replay(files, keys, filepath);
      && (forall p :: p in r.written ==> p !in files)
      && r.files == files + set p | p in r.written
    decreases |keys|
  {
    if keys != [] && Basename(keys[0]).Some? {
      var path := TargetPath(filepath, Basename(keys[0]).value);
      if path in files {
        ReplayNoOverwrite(files, keys[1..], filepath);
      } else {
        ReplayNoOverwrite(files + {path}, keys[1..], filepath);
        var rest := Replay(files + {path}, keys[1..], filepath);
        assert Replay(files, keys, filepath).written == [path] + rest.written;
        assert (set p | p in [path] + rest.written) == {path} + set p | p in rest.written;
      }
    }
  }

  /** Putting a new element in front keeps a sequence free of repetitions. */
  lemma DistinctCons(x: string, s: seq<string>)
    requires x !in s && Distinct(s)
    ensures Distinct([x] + s)
  {
    var w := [x] + s;
    forall i, j | 0 <= i < j < |w| ensures w[i] != w[j] {
      if i == 0 { assert w[j] == s[j - 1]; }
      else { assert w[i] == s[i - 1] && w[j] == s[j - 1]; }
    }
  }

  /** No path is written twice in one pass, so of two blobs with the same name
      only the first is fetched. */
  lemma {:induction false} ReplayWritesOnce(files: set<string>, keys: seq<string>, filepath: string)
    ensures Distinct(Replay(files, keys, filepath).written)
    decreases |keys|
  {
    if keys != [] && Basename(keys[0]).Some? {
      var path := TargetPath(filepath, Basename(keys[0]).value);
      if path in files {
        ReplayWritesOnce(files, keys[1..], filepath);
      } else {
        ReplayWritesOnce(files + {path}, keys[1..], filepath);
        ReplayNoOverwrite(files + {path}, keys[1..], filepath);
        var rest := Replay(files + {path}, keys[1..], filepath);
        assert Replay(files, keys, filepath).written == [path] + rest.written;
        DistinctCons(path, rest.written);
      }
    }
  }

  /** A pass fails exactly when some listed key has no `/`. */
  lemma {:induction false} ReplayFails(files: set<string>, keys: seq<string>, filepath: string)
    ensures Replay(files, keys, filepath).failed <==> exists k :: k in keys && '/' !in k
    decreases |keys|
  {
    if keys != [] {
      assert keys[0] in keys;
      assert forall k :: k in keys <==> k == keys[0] || k in keys[1..];
      if Basename(keys[0]).Some? {
        var path := TargetPath(filepath, Basename(keys[0]).value);
        ReplayFails(if path in files then files else files + {path}, keys[1..], filepath);
      }
    }
  }

  /** Under the script every listed key begins with the prefix, which holds a
      `/`, so the pass never fails. */
  lemma ListingNeverFails(files: set<string>, keys: seq<string>, filepath: string, t: string, band: string)
    requires forall k :: k in keys ==> Prefix(t, band) <= k
    ensures !Replay(files, keys, filepath).failed
  {
    var p := Prefix(t, band);
    forall k | k in keys ensures '/' in k {
      var i :| 0 <= i < |p| && p[i] == '/';
      assert k[i] == p[i];
    }
    ReplayFails(files, keys, filepath);
  }

  /** After a pass that did not fail, every listed blob's target path exists. */
  lemma {:induction false} ReplayCovers(files: set<string>, keys: seq<string>, filepath: string)
    requires !Replay(files, keys, filepath).failed
    ensures forall k :: k in keys ==>
      Basename(k).Some? && TargetPath(filepath, Basename(k).value) in Replay(files, keys, filepath).files
    decreases |keys|
  {
    if keys != [] {
      var path := TargetPath(filepath, Basename(keys[0]).value);
      var next := if path in files then files else files + {path};
      ReplayCovers(next, keys[1..], filepath);
      assert forall k :: k in keys <==> k == keys[0] || k in keys[1..];
    }
  }

  /** When every listed blob's target already exists, a pass writes nothing. */
  lemma {:induction false} ReplaySettled(files: set<string>, keys: seq<string>, filepath: string)
    requires forall k :: k in keys ==> Basename(k).Some? && TargetPath(filepath, Basename(k).value) in files
    ensures Replay(files, keys, filepath) == Run(files, [], false)
    decreases |keys|
  {
    if keys != [] {
      assert keys[0] in keys;
      assert forall k :: k in keys[1..] ==> k in keys;
      ReplaySettled(files, keys[1..], filepath);
    }
  }

  /** Running the same listing again on the files a successful pass left
      downloads nothing and changes nothing. */
  lemma ReplayIdempotent(files: set<string>, keys: seq<string>, filepath: string)
    requires !Replay(files, keys, filepath).failed
    ensures var after := Replay(files, keys, filepath).files;
      Replay(after, keys, filepath) == Run(after, [], false)
  {
    ReplayCovers(files, keys, filepath);
    ReplaySettled(Replay(files, keys, filepath).files, keys, filepath);
  }

  /** The step the loop takes when it reaches a key: that blob is written if
      and only if its target is absent from the paths existing at that moment,
      the ones before the pass plus the ones written so far. */
  lemma {:induction false} ReplayStep(files: set<string>, keys: seq<string>, key: string, filepath: string)
    requires !Replay(files, keys, filepath).failed
    ensures var r := Replay(files, keys, filepath);
      Replay(files, keys + [key], filepath) ==
        match Basename(key)
        case None => Run(r.files, r.written, true)
        case Some(name) =>
          var path := TargetPath(filepath, name);
          if path in r.files then r else Run(r.files + {path}, r.written + [path], false)
    decreases |keys|
  {
    if keys == [] {
      assert [] + [key] == [key];
    } else {
      assert (keys + [key])[0] == keys[0];
      assert (keys + [key])[1..] == keys[1..] + [key];
      var path := TargetPath(filepath, Basename(keys[0]).value);
      if path in files {
        ReplayStep(files, keys[1..], key, filepath);
      } else {
        ReplayStep(files + {path}, keys[1..], key, filepath);
      }
    }
  }

  /** The local destination folder: the paths that exist in it and the log of
      downloads made, one entry per file written. */
  class LocalFolder {
    var paths: set<string>
    var log: seq<string>

    constructor (existing: set<string>)
      ensures paths == existing && log == []
    {
      paths := existing;
      log := [];
    }

    /** Creates `path` and fills it with the blob's bytes. */
    method Download(path: string)
      modifies this
      ensures paths == old(paths) + {path} && log == old(log) + [path]
    {
      paths := paths + {path};
      log := log + [path];
    }

    /** Walks the listing in order and downloads each blob whose target path
        does not exist yet. Returns false when a key without `/` stopped the
        walk with an index error. */
    method DownloadBlobs(blobs: seq<string>, filepath: string) returns (ok: bool)
      modifies this
      ensures var r := Replay(old(paths), blobs, filepath);
        paths == r.files && log == old(log) + r.written && ok == !r.failed
    {
      ghost var whole := Replay(paths, blobs, filepath);
      ghost var done: seq<string> := [];
      var i := 0;
      while i < |blobs|
        invariant 0 <= i <= |blobs|
        invariant log == old(log) + done
        invariant var rest := Replay(paths, blobs[i..], filepath);
          whole == Run(rest.files, done + rest.written, rest.failed)
      {
        assert blobs[i..][0] == blobs[i] && blobs[i..][1..] == blobs[i + 1..];
        var name := Basename(blobs[i]);
        if name.None? {
          return false;
        }
        var filespec := TargetPath(filepath, name.value);
        if filespec !in paths {
          ghost var rest := Replay(paths + {filespec}, blobs[i + 1..], filepath);
          assert done + ([filespec] + rest.written) == (done + [filespec]) + rest.written;
          Download(filespec);
          done := done + [filespec];
        }
        i := i + 1;
      }
      ok := true;
    }
  }
}
