/** Node's `path.extname` for POSIX paths: the extension of the last path
    component, from its last '.' to its end. The result is empty when the
    component has no '.', when its only '.' is its first character (a dot
    file such as ".env"), and for the component "..". Trailing '/'
    characters are ignored. */
module NodePath {
  import opened Text

  /** The index of the last occurrence of `c` in `s`, or -1. */
  function LastIndexOf(s: string, c: char): (k: int)
    ensures -1 <= k < |s|
    ensures k >= 0 ==> s[k] == c
    ensures forall i :: k < i < |s| ==> s[i] != c
    decreases |s|
  {
    if |s| == 0 then -1
    else if s[|s| - 1] == c then |s| - 1
    else LastIndexOf(s[..|s| - 1], c)
  }

  /** The last occurrence is the only position holding `c` with no `c` after it. */
  lemma LastIndexOfIs(s: string, c: char, k: nat)
    requires k < |s| && s[k] == c
    requires forall i :: k < i < |s| ==> s[i] != c
    ensures LastIndexOf(s, c) == k
  {
  }

  /** The path without its trailing separators. */
  function TrimTrailingSlashes(p: string): (r: string)
    ensures |r| <= |p| && r == p[..|r|]
    ensures r == [] || r[|r| - 1] != '/'
    decreases |p|
  {
    if |p| > 0 && p[|p| - 1] == '/' then TrimTrailingSlashes(p[..|p| - 1]) else p
  }

  /** Only separators are dropped. */
  lemma {:induction false} TrimDropsOnlySlashes(p: string)
    ensures forall i :: |TrimTrailingSlashes(p)| <= i < |p| ==> p[i] == '/'
    decreases |p|
  {
    if |p| > 0 && p[|p| - 1] == '/' {
      TrimDropsOnlySlashes(p[..|p| - 1]);
    }
  }

  /** The part of `t` after its last separator, or all of `t` when it has
      none: a suffix of `t` without separators, preceded by '/' or by
      nothing. */
  function AfterLastSlash(t: string): (b: string)
    ensures forall i :: 0 <= i < |b| ==> b[i] != '/'
    ensures EndsWith(t, b) && (|b| == |t| || t[|t| - |b| - 1] == '/')
  {
    t[LastIndexOf(t, '/') + 1..]
  }

  /** The last path component: the part of the path, without its trailing
      separators, after its last separator. */
  function LastComponent(p: string): (b: string)
    ensures forall i :: 0 <= i < |b| ==> b[i] != '/'
    ensures var t := TrimTrailingSlashes(p);
      EndsWith(t, b) && (|b| == |t| || t[|t| - |b| - 1] == '/')
  {
    AfterLastSlash(TrimTrailingSlashes(p))
  }

  /** The extension of one path component: from its last '.' to its end,
      unless that '.' is the component's first character or the component
      is "..". */
  function ComponentExtension(b: string): (e: string)
    ensures EndsWith(b, e)
    ensures e == "" || (e[0] == '.' && |e| < |b|)
    ensures forall i :: 1 <= i < |e| ==> e[i] != '.'
    ensures e == "" <==> b == ".." || forall k :: 0 < k < |b| ==> b[k] != '.'
  {
    var d := LastIndexOf(b, '.');
    if d <= 0 || b == ".." then "" else b[d..]
  }

  /** `path.extname(p)`: the extension of the last component. */
  function ExtName(p: string): (e: string)
    ensures e == "" || e[0] == '.'
  {
    ComponentExtension(LastComponent(p))
  }

  /** The extension is empty exactly when the last component is "..", or
      holds no '.' after its first character. */
  lemma ExtNameEmptyIff(p: string)
    ensures var b := LastComponent(p);
      ExtName(p) == "" <==> b == ".." || forall k :: 0 < k < |b| ==> b[k] != '.'
  {
    var b := LastComponent(p);
    assert ExtName(p) == ComponentExtension(b);
  }

  /** The extension is empty, or a '.' followed by characters that are
      neither '.' nor '/'; in either case a suffix of the last component. */
  lemma ExtNameShape(p: string)
    ensures var e := ExtName(p);
      && (forall i :: 1 <= i < |e| ==> e[i] != '.')
      && (forall i :: 0 <= i < |e| ==> e[i] != '/')
      && EndsWith(LastComponent(p), e)
  {
    var b := LastComponent(p);
    assert ExtName(p) == ComponentExtension(b);
    ComponentExtensionWithoutSlash(b);
  }

  /** The extension of a component without separators has none either. */
  lemma ComponentExtensionWithoutSlash(b: string)
    requires forall i :: 0 <= i < |b| ==> b[i] != '/'
    ensures forall i :: 0 <= i < |ComponentExtension(b)| ==> ComponentExtension(b)[i] != '/'
  {
    var e := ComponentExtension(b);
    assert forall i :: 0 <= i < |e| ==> e[i] == b[|b| - |e| + i];
  }

  /** A path without separators is its own last component. */
  lemma LastComponentWithoutSlash(p: string)
    requires forall i :: 0 <= i < |p| ==> p[i] != '/'
    ensures LastComponent(p) == p
  {
    assert TrimTrailingSlashes(p) == p;
    assert LastIndexOf(p, '/') == -1;
  }

  /** A component other than ".." whose last '.' is at `k > 0` has the
      extension from `k` on, whatever its first character. */
  lemma ComponentExtensionAt(b: string, k: nat)
    requires 0 < k < |b| && b != ".." && b[k] == '.'
    requires forall i :: k < i < |b| ==> b[i] != '.'
    ensures ComponentExtension(b) == b[k..]
  {
    LastIndexOfIs(b, '.', k);
  }

  /** A stem joined with an extension holds no separator, and after the
      stem holds no '.' but the extension's first character. */
  lemma StemAndExtensionChars(stem: string, ext: string)
    requires |stem| > 0 && stem[0] != '.' && '/' !in stem
    requires |ext| > 0 && ext[0] == '.'
    requires forall i :: 1 <= i < |ext| ==> ext[i] != '.' && ext[i] != '/'
    ensures var p := stem + ext;
      && p[0] != '.' && p[|stem|] == '.' && p[|stem|..] == ext
      && (forall i :: 0 <= i < |p| ==> p[i] != '/')
      && (forall i :: |stem| < i < |p| ==> p[i] != '.')
  {
    var p := stem + ext;
    forall i | 0 <= i < |p|
      ensures p[i] != '/'
    {
      if i < |stem| {
        assert p[i] == stem[i];
        assert stem[i] in stem;
      } else {
        assert p[i] == ext[i - |stem|];
      }
    }
    forall i | |stem| < i < |p|
      ensures p[i] != '.'
    {
      assert p[i] == ext[i - |stem|];
    }
  }

  /** Such a name is its own last component. */
  lemma StemAndExtensionComponent(stem: string, ext: string)
    requires |stem| > 0 && stem[0] != '.' && '/' !in stem
    requires |ext| > 0 && ext[0] == '.'
    requires forall i :: 1 <= i < |ext| ==> ext[i] != '.' && ext[i] != '/'
    ensures LastComponent(stem + ext) == stem + ext
  {
    StemAndExtensionChars(stem, ext);
    LastComponentWithoutSlash(stem + ext);
  }

  /** Such a name, as a component, has the extension `ext`. */
  lemma StemAndExtensionComponentExtension(stem: string, ext: string)
    requires |stem| > 0 && stem[0] != '.' && '/' !in stem
    requires |ext| > 0 && ext[0] == '.'
    requires forall i :: 1 <= i < |ext| ==> ext[i] != '.' && ext[i] != '/'
    ensures ComponentExtension(stem + ext) == ext
  {
    StemAndExtensionChars(stem, ext);
    assert (stem + ext)[0] != '.';
    ComponentExtensionAt(stem + ext, |stem|);
  }

  /** A name made of a stem and an extension, with no separator in either,
      a stem that does not begin with '.', and an extension that is a single
      '.' followed by anything but '.', has exactly that extension. */
  lemma ExtNameOfStemAndExtension(stem: string, ext: string)
    requires |stem| > 0 && stem[0] != '.' && '/' !in stem
    requires |ext| > 0 && ext[0] == '.'
    requires forall i :: 1 <= i < |ext| ==> ext[i] != '.' && ext[i] != '/'
    ensures ExtName(stem + ext) == ext
  {
    StemAndExtensionComponent(stem, ext);
    StemAndExtensionComponentExtension(stem, ext);
  }

  /** A name with no '.' in its last component has no extension. */
  lemma ExtNameWithoutDot(p: string)
    requires '.' !in LastComponent(p)
    ensures ExtName(p) == ""
  {
  }

  /** A dot file's name holds no separator and no '.' after the first. */
  lemma DotFileChars(name: string)
    requires '/' !in name && '.' !in name
    ensures var p := "." + name;
      && p[0] == '.'
      && (forall i :: 0 <= i < |p| ==> p[i] != '/')
      && (forall i :: 0 < i < |p| ==> p[i] != '.')
  {
    var p := "." + name;
    forall i | 0 < i < |p|
      ensures p[i] != '/' && p[i] != '.'
    {
      assert p[i] == name[i - 1];
      assert name[i - 1] in name;
    }
  }

  /** A dot file's name is its own last component. */
  lemma DotFileComponent(name: string)
    requires '/' !in name && '.' !in name
    ensures LastComponent("." + name) == "." + name
  {
    DotFileChars(name);
    LastComponentWithoutSlash("." + name);
  }

  /** A dot file's name, as a component, has no extension. */
  lemma DotFileComponentExtension(name: string)
    requires '/' !in name && '.' !in name
    ensures ComponentExtension("." + name) == ""
  {
    DotFileChars(name);
    LastIndexOfIs("." + name, '.', 0);
  }

  /** A dot file whose only '.' is its first character has no extension. */
  lemma ExtNameOfDotFile(name: string)
    requires '/' !in name && '.' !in name
    ensures ExtName("." + name) == ""
  {
    DotFileComponent(name);
    DotFileComponentExtension(name);
  }

  /** Names that begin with '.': the extension starts at the last '.' when
      it is not the first character, and ".." has none. */
  lemma DotLeadingExamples()
    ensures ComponentExtension(".env.local") == ".local"
    ensures ComponentExtension("..a") == ".a"
    ensures ComponentExtension("...") == "."
    ensures ComponentExtension("..") == ""
  {
    ComponentExtensionAt(".env.local", 4);
    ComponentExtensionAt("..a", 1);
    ComponentExtensionAt("...", 2);
  }
}
