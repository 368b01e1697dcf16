/**
 * The file-filtering hook: before the build, drop every discovered file that
 * lies too deep in the directory tree. The limit comes from the MKDOCS_DEPTH
 * environment variable, passed in here as an optional string.
 */
module DepthFilter {
  import opened Wrappers
  import opened Structure
  import IntParse

  /** The depth of a path is the number of '/' characters in it, so a file
      at the root of the documentation directory has depth 0. */
  function Depth(path: string): (d: nat)
    ensures d == multiset(path)['/']
  {
    if path == [] then 0
    else
      assert path == path[..|path| - 1] + [path[|path| - 1]];
      Depth(path[..|path| - 1]) + (if path[|path| - 1] == '/' then 1 else 0)
  }

  /** The files, in their original order, whose depth is strictly below maxDepth. */
  function Keep(files: seq<File>, maxDepth: int): (kept: seq<File>)
    ensures |kept| <= |files|
  {
    if files == [] then []
    else
      var last := files[|files| - 1];
      Keep(files[..|files| - 1], maxDepth) + (if Depth(last.srcPath) < maxDepth then [last] else [])
  }

  /** The depth limit read from the variable's value: None when the variable
      is unset, empty or not an integer, which switches filtering off. */
  function MaxDepth(env: Option<string>): (limit: Option<int>)
    ensures env == None || env == Some("") ==> limit == None
    ensures limit.Some? ==> env.Some? && IntParse.ParseInt(env.value) == limit
    ensures env.Some? && IntParse.ParseInt(env.value).Some? ==> limit.Some?
  {
    var depthStr := if env.Some? then env.value else "";
    if depthStr == "" then None else IntParse.ParseInt(depthStr)
  }

  /** What the hook returns, as a function of the variable and the files. */
  function FilterFiles(env: Option<string>, files: seq<File>): (r: seq<File>)
    ensures |r| <= |files|
    ensures env == None || env == Some("") ==> r == files
  {
    match MaxDepth(env)
    case None => files
    case Some(maxDepth) => Keep(files, maxDepth)
  }

  /** The hook: return the files unchanged when no valid limit is set,
      otherwise build the list of files below the limit, in order. */
  method OnFiles(env: Option<string>, files: seq<File>) returns (result: seq<File>)
    ensures env == None || env == Some("") ==> result == files
    ensures env.Some? && IntParse.ParseInt(env.value).None? ==> result == files
    ensures env.Some? && IntParse.ParseInt(env.value).Some? ==>
              result == Keep(files, IntParse.ParseInt(env.value).value)
    ensures result == FilterFiles(env, files)
  {
    var depthStr := if env.Some? then env.value else "";
    if depthStr == "" {
      return files;
    }
    var parsed := IntParse.ParseInt(depthStr);
    if parsed.None? {
      return files;
    }
    var maxDepth := parsed.value;
    var filtered := [];
    for i := 0 to |files|
      invariant filtered == Keep(files[..i], maxDepth)
    {
      var file := files[i];
      assert files[..i + 1][..i] == files[..i];
      var depth := Depth(file.srcPath);
      if depth < maxDepth {
        filtered := filtered + [file];
      }
    }
    assert files[..|files|] == files;
    return filtered;
  }

  /** Every input file below the limit is kept, and nothing else is:
      f is in the result exactly when f is an input file with depth < maxDepth. */
  lemma {:induction false} KeepMembership(files: seq<File>, maxDepth: int, f: File)
    ensures f in Keep(files, maxDepth) <==> f in files && Depth(f.srcPath) < maxDepth
  {
    KeepCount(files, maxDepth, f);
    assert f in Keep(files, maxDepth) <==> f in multiset(Keep(files, maxDepth));
    assert f in files <==> f in multiset(files);
  }

  /** Stronger than membership: a file below the limit occurs in the result
      as many times as in the input; a file at or beyond it, never. */
  lemma {:induction false} KeepCount(files: seq<File>, maxDepth: int, f: File)
    ensures multiset(Keep(files, maxDepth))[f] ==
              if Depth(f.srcPath) < maxDepth then multiset(files)[f] else 0
  {
    if files != [] {
      var init, last := files[..|files| - 1], files[|files| - 1];
      KeepCount(init, maxDepth, f);
      assert files == init + [last];
      var tail := if Depth(last.srcPath) < maxDepth then [last] else [];
      assert Keep(files, maxDepth) == Keep(init, maxDepth) + tail;
      assert multiset(Keep(files, maxDepth)) == multiset(Keep(init, maxDepth)) + multiset(tail);
      assert multiset(files) == multiset(init) + multiset{last};
    }
  }

  /** One way of embedding a in b: idx[k] is the position in b of a[k],
      and positions strictly increase. */
  ghost predicate IsEmbedding<T>(idx: seq<int>, a: seq<T>, b: seq<T>) {
    && |idx| == |a|
    && (forall k :: 0 <= k < |idx| ==> 0 <= idx[k] < |b| && a[k] == b[idx[k]])
    && (forall j, k :: 0 <= j < k < |idx| ==> idx[j] < idx[k])
  }

  /** a is obtained from b by deleting entries, without reordering. */
  ghost predicate IsSubsequence<T>(a: seq<T>, b: seq<T>) {
    exists idx :: IsEmbedding(idx, a, b)
  }

  /** The filter introduces no entries and keeps the relative order of those it keeps. */
  lemma {:induction false} KeepSubsequence(files: seq<File>, maxDepth: int)
    ensures IsSubsequence(Keep(files, maxDepth), files)
  {
    if files == [] {
      assert IsEmbedding([], Keep(files, maxDepth), files);
    } else {
      var init, last := files[..|files| - 1], files[|files| - 1];
      KeepSubsequence(init, maxDepth);
      var idx :| IsEmbedding(idx, Keep(init, maxDepth), init);
      if Depth(last.srcPath) < maxDepth {
        assert IsEmbedding(idx + [|files| - 1], Keep(files, maxDepth), files);
      } else {
        assert IsEmbedding(idx, Keep(files, maxDepth), files);
      }
    }
  }

  /** When every file is below the limit the filter changes nothing. */
  lemma {:induction false} KeepAllShallow(files: seq<File>, maxDepth: int)
    requires forall i :: 0 <= i < |files| ==> Depth(files[i].srcPath) < maxDepth
    ensures Keep(files, maxDepth) == files
  {
    if files != [] {
      var init, last := files[..|files| - 1], files[|files| - 1];
      KeepAllShallow(init, maxDepth);
      assert Depth(last.srcPath) < maxDepth;
      assert files == init + [last];
    }
  }

  /** Filtering twice with the same limit is filtering once. */
  lemma KeepIdempotent(files: seq<File>, maxDepth: int)
    ensures Keep(Keep(files, maxDepth), maxDepth) == Keep(files, maxDepth)
  {
    var kept := Keep(files, maxDepth);
    forall i | 0 <= i < |kept| ensures Depth(kept[i].srcPath) < maxDepth {
      KeepMembership(files, maxDepth, kept[i]);
    }
    KeepAllShallow(kept, maxDepth);
  }

  /** A limit of zero or less keeps nothing, since no depth is negative. */
  lemma {:induction false} KeepNonPositive(files: seq<File>, maxDepth: int)
    requires maxDepth <= 0
    ensures Keep(files, maxDepth) == []
  {
    if files != [] {
      KeepNonPositive(files[..|files| - 1], maxDepth);
    }
  }

  /** Running the hook twice with the same variable gives what running it once gives. */
  lemma OnFilesIdempotent(env: Option<string>, files: seq<File>)
    ensures FilterFiles(env, FilterFiles(env, files)) == FilterFiles(env, files)
  {
    if MaxDepth(env).Some? {
      KeepIdempotent(files, MaxDepth(env).value);
    }
  }

  /** The hook's result is always a subsequence of its input, with or without a limit. */
  lemma OnFilesSubsequence(env: Option<string>, files: seq<File>)
    ensures IsSubsequence(FilterFiles(env, files), files)
  {
    if MaxDepth(env).Some? {
      KeepSubsequence(files, MaxDepth(env).value);
    } else {
      var idx := seq(|files|, k => k);
      assert IsEmbedding(idx, files, files);
    }
  }

  /** Three files one level apart, against the limit 1: only the root-level one stays. */
  lemma KeepThreeLevels(a: File, b: File, c: File)
    requires Depth(a.srcPath) == 0 && Depth(b.srcPath) == 1 && Depth(c.srcPath) == 2
    ensures Keep([a, b, c], 1) == [a]
  {
    var s3, s2, s1: seq<File> := [a, b, c], [a, b], [a];
    assert s3[..2] == s2 && s2[..1] == s1 && s1[..0] == [];
    assert Keep(s1, 1) == Keep([], 1) + [a];
    assert Keep(s2, 1) == Keep(s1, 1);
    assert Keep(s3, 1) == Keep(s2, 1);
  }

  /** A root-level file has depth 0; each directory level adds one. */
  lemma ExampleDepths()
    ensures Depth("a.md") == 0 && Depth("x/b.md") == 1 && Depth("x/y/c.md") == 2
  {
    assert multiset("x/b.md")['/'] == 1;
    assert multiset("x/y/c.md")['/'] == 2;
  }

  /** MKDOCS_DEPTH=1 keeps only the root-level file. */
  lemma ExampleLimitOne()
    ensures FilterFiles(Some("1"), [File("a.md"), File("x/b.md"), File("x/y/c.md")]) == [File("a.md")]
  {
    IntParse.ExampleParses();
    ExampleDepths();
    KeepThreeLevels(File("a.md"), File("x/b.md"), File("x/y/c.md"));
  }

  /** Without the variable, or with a value that is not a number, nothing is dropped. */
  lemma ExampleNoLimit()
    ensures FilterFiles(None, [File("a.md"), File("x/b.md")]) == [File("a.md"), File("x/b.md")]
    ensures FilterFiles(Some("two"), [File("a.md"), File("x/b.md")]) == [File("a.md"), File("x/b.md")]
  {
  }
}
