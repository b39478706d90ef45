/** Loading a configuration file and everything it includes (internal/config): a recursive
    loader that drains one shared queue. */
module Loader {
  import opened Basics

  /** A file name; the empty name means "no file". */
  type Path = string

  /** The files that can be read and parsed, with the files each one includes after globbing.
      Any other name is a read or parse error. */
  type Files = map<Path, seq<Path>>

  /** Globbing never yields the empty name. */
  predicate WellFormed(files: Files) {
    forall f, i :: f in files && 0 <= i < |files[f]| ==> files[f][i] != ""
  }

  ghost predicate IsChain(files: Files, p: seq<Path>) {
    p != [] && forall i :: 0 <= i < |p| - 1 ==> p[i] in files && p[i + 1] in files[p[i]]
  }

  /** b can be got at from a by following includes. */
  ghost predicate Reachable(files: Files, a: Path, b: Path) {
    exists p :: IsChain(files, p) && p[0] == a && p[|p| - 1] == b
  }

  lemma ReachSelf(files: Files, a: Path)
    ensures Reachable(files, a, a)
  {
    assert IsChain(files, [a]);
  }

  lemma ReachNext(files: Files, a: Path, b: Path, c: Path)
    requires Reachable(files, a, b) && b in files && c in files[b]
    ensures Reachable(files, a, c)
  {
    var p :| IsChain(files, p) && p[0] == a && p[|p| - 1] == b;
    var q := p + [c];
    assert IsChain(files, q) && q[0] == a && q[|q| - 1] == c;
  }

  /** A set that holds a and all includes of its members holds everything reachable. */
  lemma {:induction false} ClosedHoldsChain(files: Files, s: set<Path>, p: seq<Path>)
    requires IsChain(files, p) && p[0] in s
    requires forall f :: f in s ==> f in files
    requires forall f, i :: f in s && 0 <= i < |files[f]| ==> files[f][i] in s
    ensures p[|p| - 1] in s
  {
    if |p| > 1 {
      assert p[1] in files[p[0]];
      var q := p[1..];
      forall i | 0 <= i < |q| - 1 ensures q[i] in files && q[i + 1] in files[q[i]] {
        assert q[i] == p[i + 1] && q[i + 1] == p[i + 2];
      }
      ClosedHoldsChain(files, s, q);
    }
  }

  class Config {
    var includes: seq<Path>
    var processed: set<Path>
    /** The files handed to the parser, in order. */
    ghost var parsed: seq<Path>

    constructor ()
      ensures includes == [] && processed == {} && parsed == []
    {
      includes, processed, parsed := [], {}, [];
    }

    /** What is queued or processed came from root, and what a processed file includes is
        processed, still queued, or the file `now` about to be loaded. */
    ghost predicate Consistent(files: Files, root: Path, now: Path)
      reads this
    {
      && (forall f :: f in processed ==> Reachable(files, root, f))
      && (forall i :: 0 <= i < |includes| ==> includes[i] != "" && Reachable(files, root, includes[i]))
      && (forall f :: f in processed ==> f in files && Followed(files[f], now))
      && (forall f :: f in processed <==> f in parsed)
    }

    ghost predicate Followed(fs: seq<Path>, now: Path)
      reads this
    {
      forall i :: 0 <= i < |fs| ==> fs[i] in processed || fs[i] in includes || fs[i] == now
    }

    /** AddInclude over the sorted matches: queue the ones not yet processed. */
    method AddIncludes(matches: seq<Path>)
      modifies this`includes
      ensures old(includes) <= includes && Followed(matches, "")
      ensures forall i :: |old(includes)| <= i < |includes| ==> includes[i] in matches
    {
      for n := 0 to |matches|
        invariant old(includes) <= includes && Followed(matches[..n], "")
        invariant forall i :: |old(includes)| <= i < |includes| ==> includes[i] in matches
      {
        if matches[n] !in processed {
          includes := includes + [matches[n]];
        }
      }
      assert matches[..|matches|] == matches;
    }

    method PopInclude() returns (p: Path, ok: bool)
      modifies this`includes
      ensures ok <==> old(includes) != []
      ensures ok ==> [p] + includes == old(includes)
      ensures !ok ==> includes == []
    {
      if includes == [] { return "", false; }
      p, ok := includes[0], true;
      includes := includes[1..];
    }

    method NextInclude(files: Files, ghost root: Path) returns (p: Path, ok: bool)
      requires WellFormed(files) && Consistent(files, root, "")
      modifies this`includes
      ensures ok <==> old(includes) != []
      ensures ok ==> |includes| < |old(includes)| && p != "" && Reachable(files, root, p) && Consistent(files, root, p)
      ensures !ok ==> includes == [] && Consistent(files, root, "")
    {
      hide Reachable;
      ghost var queue := includes;
      p, ok := PopInclude();
      if ok {
        assert queue[0] == p && forall i :: 0 <= i < |includes| ==> includes[i] == queue[i + 1];
        assert forall x :: x in queue ==> x == p || x in includes;
        forall f | f in processed ensures f in files && Followed(files[f], p) {
          assert old(Followed(files[f], ""));
        }
      }
    }

    lemma SkipProcessed(files: Files, root: Path, p: Path)
      requires Consistent(files, root, p) && p in processed
      ensures Consistent(files, root, "")
    {
      forall f | f in processed ensures Followed(files[f], "") { assert Followed(files[f], p); }
    }

    /** LoadFile. It ends on every include graph; when it succeeds the queue is empty, and it
        fails only if some file reachable from the root cannot be loaded. No file is parsed
        twice, unless the caller asks for one that was loaded before. */
    method LoadFile(files: Files, ghost root: Path, path: Path) returns (ok: bool)
      requires WellFormed(files) && Consistent(files, root, path)
      requires path != "" ==> Reachable(files, root, path)
      modifies this
      ensures old(processed) <= processed && old(parsed) <= parsed
      ensures ok ==> Consistent(files, root, "") && includes == [] && (path != "" ==> path in processed)
      ensures !ok ==> exists f :: Reachable(files, root, f) && f !in files
      ensures path !in old(processed) && NoDuplicates(old(parsed)) ==> NoDuplicates(parsed)
      decreases files.Keys - processed, path == "" || path in processed
    {
      if path != "" {
        if path !in files { return false; }
        Parse(files, root, path);
      }
      while true
        invariant Consistent(files, root, "") && old(processed) <= processed && old(parsed) <= parsed
        invariant path != "" ==> path in processed
        invariant path !in old(processed) && NoDuplicates(old(parsed)) ==> NoDuplicates(parsed)
        decreases files.Keys - processed, |includes|
      {
        hide Reachable, NoDuplicates, WellFormed;
        ghost var before := processed;
        var inc, more := NextInclude(files, root);
        if !more { return true; }
        if inc in processed {
          SkipProcessed(files, root, inc);
          continue;
        }
        assert files.Keys - processed <= files.Keys - old(processed);
        assert path != "" && path !in old(processed) ==>
          path in (files.Keys - old(processed)) - (files.Keys - processed);
        var loaded := LoadFile(files, root, inc);
        if !loaded { return false; }
        assert inc in (files.Keys - before) - (files.Keys - processed);
      }
    }

    method Parse(files: Files, ghost root: Path, path: Path)
      requires WellFormed(files) && Consistent(files, root, path)
      requires path != "" && path in files && Reachable(files, root, path)
      modifies this
      ensures Consistent(files, root, "") && processed == old(processed) + {path} && parsed == old(parsed) + [path]
      ensures path !in old(processed) && NoDuplicates(old(parsed)) ==> NoDuplicates(parsed)
    {
      hide Reachable;
      AddIncludes(files[path]);
      processed := processed + {path};
      parsed := parsed + [path];
      forall i | 0 <= i < |includes| ensures includes[i] != "" && Reachable(files, root, includes[i]) {
        if i >= |old(includes)| { ReachNext(files, root, path, includes[i]); }
      }
      forall f | f in processed ensures Followed(files[f], "") {
        if f in old(processed) { assert old(Followed(files[f], path)); }
      }
    }

    /** Loading a file into a new configuration succeeds exactly when every file reachable from
        it can be loaded, and then each of those files has been parsed exactly once. */
    method LoadFresh(files: Files, path: Path) returns (ok: bool)
      requires WellFormed(files) && path != "" && includes == [] && processed == {} && parsed == []
      modifies this
      ensures ok <==> forall f :: Reachable(files, path, f) ==> f in files
      ensures NoDuplicates(parsed)
      ensures ok ==> forall f :: f in parsed <==> Reachable(files, path, f)
    {
      ReachSelf(files, path);
      ok := LoadFile(files, path, path);
      if ok {
        forall f | Reachable(files, path, f) ensures f in processed {
          var p :| IsChain(files, p) && p[0] == path && p[|p| - 1] == f;
          ClosedHoldsChain(files, processed, p);
        }
      }
    }
  }
}
