/**
 * The content hook: after a page is rendered, replace its title with the
 * stem of its source file name (pathlib's Path(src_path).stem), and hand the
 * rendered content back unchanged.
 */
module FilenameTitle {
  import opened Wrappers
  import opened Structure

  /** No character of s is c. */
  predicate Excludes(s: string, c: char) {
    forall k :: 0 <= k < |s| ==> s[k] != c
  }

  /** The index of the last occurrence of c in s, or -1 when c does not
      occur (Python's str.rfind for one character). */
  function LastIndexOf(s: string, c: char): (i: int)
    ensures -1 <= i < |s|
    ensures i >= 0 ==> s[i] == c
    ensures forall k :: i < k < |s| ==> s[k] != c
  {
    if s == [] then -1
    else if s[|s| - 1] == c then |s| - 1
    else LastIndexOf(s[..|s| - 1], c)
  }

  /** The final path segment: everything after the last '/', the whole
      path when it has none. */
  function BaseName(path: string): (name: string)
    ensures Excludes(name, '/')
    ensures |name| <= |path| && name == path[|path| - |name|..]
    ensures |name| < |path| ==> path[|path| - |name| - 1] == '/'
  {
    var slash := LastIndexOf(path, '/');
    var name := path[slash + 1..];
    forall k | 0 <= k < |name| ensures name[k] != '/' {
      assert name[k] == path[slash + 1 + k];
    }
    name
  }

  /** The stem of a final segment (pathlib's PurePath.stem): the segment cut
      at its last dot, unless that dot is its first or its last character,
      in which case the segment is kept whole. */
  function StemOfName(name: string): (stem: string)
    ensures stem <= name
    ensures stem != name ==>
              && 0 < |stem| < |name| - 1
              && name[|stem|] == '.'
              && Excludes(name[|stem| + 1..], '.')
  {
    var dot := LastIndexOf(name, '.');
    if 0 < dot < |name| - 1 then
      var ext := name[dot + 1..];
      forall k | 0 <= k < |ext| ensures ext[k] != '.' {
        assert ext[k] == name[dot + 1 + k];
      }
      name[..dot]
    else
      name
  }

  /** Path(path).stem: the final segment of the path without its last
      extension. It never contains a '/'. */
  function Stem(path: string): (stem: string)
    ensures Excludes(stem, '/')
    ensures stem <= BaseName(path)
    ensures stem != BaseName(path) ==>
              && 0 < |stem| < |BaseName(path)| - 1
              && BaseName(path)[|stem|] == '.'
              && Excludes(BaseName(path)[|stem| + 1..], '.')
  {
    var name := BaseName(path);
    var stem := StemOfName(name);
    forall k | 0 <= k < |stem| ensures stem[k] != '/' {
      assert stem[k] == name[k];
    }
    stem
  }

  /** A path whose last '/' ends dir has name as its final segment. */
  lemma BaseNameOfJoin(dir: string, name: string)
    requires dir == [] || dir[|dir| - 1] == '/'
    requires Excludes(name, '/')
    ensures BaseName(dir + name) == name
  {
    var path := dir + name;
    var slash := LastIndexOf(path, '/');
    assert forall k :: |dir| <= k < |path| ==> path[k] == name[k - |dir|];
    if dir != [] {
      assert path[|dir| - 1] == '/';
    }
    assert slash == |dir| - 1;
    assert path[slash + 1..] == name;
  }

  /** Only the last extension is removed: the segment base.ext has stem
      base, whatever dots base itself contains. */
  lemma StemOfNameDropsExtension(base: string, ext: string)
    requires Excludes(ext, '.')
    requires base != [] && ext != []
    ensures StemOfName(base + "." + ext) == base
  {
    var name := base + "." + ext;
    var dot := LastIndexOf(name, '.');
    assert name[|base|] == '.';
    assert name[..|base|] == base;
  }

  /** The same for a whole path: dir/base.ext has stem base. */
  lemma StemDropsLastExtension(dir: string, base: string, ext: string)
    requires dir == [] || dir[|dir| - 1] == '/'
    requires Excludes(base, '/') && Excludes(ext, '/') && Excludes(ext, '.')
    requires base != [] && ext != []
    ensures Stem(dir + base + "." + ext) == base
  {
    var name := base + "." + ext;
    assert dir + base + "." + ext == dir + name;
    forall k | 0 <= k < |name| ensures name[k] != '/' {
      if k < |base| {
        assert name[k] == base[k];
      } else if k > |base| {
        assert name[k] == ext[k - |base| - 1];
      }
    }
    BaseNameOfJoin(dir, name);
    StemOfNameDropsExtension(base, ext);
  }

  /** A final segment with no dot strictly inside it (no dot at all, a
      leading dot only, or a trailing dot only) is its own stem. */
  lemma StemKeepsUndotted(dir: string, name: string)
    requires dir == [] || dir[|dir| - 1] == '/'
    requires Excludes(name, '/')
    requires forall k :: 0 < k < |name| - 1 ==> name[k] != '.'
    ensures Stem(dir + name) == name
  {
    BaseNameOfJoin(dir, name);
  }

  /** The page-content hook: overwrite the page's title with the stem of its
      source path, whatever it was, and return the content untouched. */
  method OnPageContent(html: string, page: Page) returns (content: string)
    modifies page`title
    ensures content == html
    ensures page.title == Some(Stem(page.file.srcPath))
    ensures page.file == old(page.file)
  {
    page.title := Some(Stem(page.file.srcPath));
    return html;
  }

  /** "docs/guide/intro.md" is titled "intro". */
  lemma ExampleNestedPath()
    ensures Stem("docs/guide/intro.md") == "intro"
  {
    assert Excludes("md", '.') && Excludes("md", '/');
    assert "docs/guide/intro.md" == "docs/guide/" + "intro" + "." + "md";
    StemDropsLastExtension("docs/guide/", "intro", "md");
  }

  /** "a.b.md" is titled "a.b": only the last extension goes. */
  lemma ExampleInnerDot()
    ensures Stem("a.b.md") == "a.b"
  {
    assert Excludes("md", '.') && Excludes("md", '/');
    assert "a.b.md" == "" + "a.b" + "." + "md";
    StemDropsLastExtension("", "a.b", "md");
  }

  /** "readme" has no extension and is its own title. */
  lemma ExampleNoExtension()
    ensures Stem("readme") == "readme"
  {
    assert "readme" == "" + "readme";
    StemKeepsUndotted("", "readme");
  }

  /** "notes/2024-plan.md" is titled "2024-plan". */
  lemma ExampleDatedName()
    ensures Stem("notes/2024-plan.md") == "2024-plan"
  {
    assert Excludes("md", '.') && Excludes("md", '/');
    assert "notes/2024-plan.md" == "notes/" + "2024-plan" + "." + "md";
    StemDropsLastExtension("notes/", "2024-plan", "md");
  }

  /** A page whose heading gave it a title gets the file-name title instead,
      and its rendered content comes back byte for byte. */
  method ExamplePage()
  {
    var page := new Page(Some("Plan for 2024"), File("notes/2024-plan.md"));
    var html := "<h1>Plan for 2024</h1>";
    var content := OnPageContent(html, page);
    ExampleDatedName();
    assert page.title == Some("2024-plan");
    assert content == html;
  }
}
