/** The path object and its methods, as the library's POSIX build has them. */
module FilePath {
  import P = PathAlgebra
  import R = PathRelative

  function Reversed(a: seq<string>): seq<string> {
    if a == [] then [] else Reversed(a[1..]) + [a[0]]
  }

  lemma {:induction false} ReversedPush(a: seq<string>, x: string)
    ensures Reversed(a + [x]) == [x] + Reversed(a)
  {
    if a == [] {
      assert [] + [x] == [x];
    } else {
      ReversedPush(a[1..], x);
      assert (a + [x])[1..] == a[1..] + [x];
    }
  }

  class FilePath {
    var path: string

    constructor (path: string)
      ensures this.path == path
    {
      this.path := path;
    }

    method StripTrailingSeparatorsInternal()
      modifies this
      ensures path == P.Strip(old(path))
    {
      ghost var p := path;
      var start := 1;
      var lastStripped := -1;
      var pos := |path|;
      while pos > start && P.IsSeparator(path[pos - 1])
        invariant 0 <= pos <= |p| && (|p| > 0 ==> pos >= 1)
        invariant p == "//" ==> path == p
        invariant p != "//" ==> path == p[..pos] && P.DropSeparators(path) == P.DropSeparators(p)
        invariant lastStripped == if pos < |p| && p != "//" then pos + 1 else -1
      {
        // Exactly two separators at the beginning stay, unless there were more.
        if pos != start + 1 || lastStripped == start + 2 || !P.IsSeparator(path[start - 1]) {
          path := path[..pos - 1];
          lastStripped := pos;
        }
        pos := pos - 1;
      }
    }

    method DirName() returns (dir: FilePath)
      ensures fresh(dir) && dir.path == P.DirName(path)
    {
      dir := new FilePath(path);
      dir.StripTrailingSeparatorsInternal();
      ghost var s := dir.path;
      var last := P.LastIndex(dir.path, '/');
      if last == -1 {
        dir.path := "";
      } else if last == 0 {
        dir.path := dir.path[..1];
      } else if last == 1 && P.IsSeparator(dir.path[0]) {
        dir.path := dir.path[..2];
      } else {
        dir.path := dir.path[..last];
      }
      assert last == 0 ==> s[..1] == "/";
      assert last == 1 && P.IsSeparator(s[0]) ==> s[..2] == "//";
      dir.StripTrailingSeparatorsInternal();
      if dir.path == "" {
        dir.path := ".";
      }
    }

    method BaseName() returns (base: FilePath)
      ensures fresh(base) && base.path == P.BaseName(path)
    {
      base := new FilePath(path);
      base.StripTrailingSeparatorsInternal();
      var last := P.LastIndex(base.path, '/');
      if last != -1 && last < |base.path| - 1 {
        base.path := base.path[last + 1..];
      }
    }

    method Append(component: string) returns (joined: FilePath)
      requires !P.IsAbsolute(component)
      ensures fresh(joined) && joined.path == P.Append(path, component)
    {
      if path == "." {
        joined := new FilePath(component);
        return;
      }
      joined := new FilePath(path);
      joined.StripTrailingSeparatorsInternal();
      if |component| > 0 && |joined.path| > 0 {
        if !P.IsSeparator(joined.path[|joined.path| - 1]) {
          joined.path := joined.path + "/";
        }
      }
      joined.path := joined.path + component;
    }

    method GetComponents() returns (components: seq<string>)
      ensures components == if path == "" then [] else P.Components(path)
    {
      if path == "" {
        return [];
      }
      hide P.Components, P.DirName, P.BaseName, P.AllSeparators;
      var found := [];
      var current := new FilePath(path);
      var dir := current.DirName();
      assert P.Components(path) + [] == P.Components(path);
      while current.path != dir.path
        invariant current.path != "" && dir.path == P.DirName(current.path)
        invariant P.Components(path) == P.Components(current.path) + Reversed(found)
        decreases |current.path|, if current.path == "." then 0 else 1
      {
        P.ComponentsStep(current.path, Reversed(found));
        var base := current.BaseName();
        if !P.AllSeparators(base.path) {
          ReversedPush(found, base.path);
          found := found + [base.path];
        }
        current := dir;
        dir := current.DirName();
      }
      P.ComponentsRoot(current.path, Reversed(found));
      var base := current.BaseName();
      if base.path != "" && base.path != "." {
        ReversedPush(found, base.path);
        found := found + [base.path];
      }
      components := Reversed(found);
    }

    static function ComponentsOf(p: string): seq<string> {
      if p == "" then [] else P.Components(p)
    }

    /** Whether `child` lies below this path; if so, `rest` (unless null) is extended
        by what leads from here to the child. */
    method AppendRelativePath(child: FilePath, rest: FilePath?) returns (below: bool)
      modifies rest
      ensures below <==> P.IsStrictPrefix(ComponentsOf(old(path)), ComponentsOf(old(child.path)))
      ensures rest != null && !below ==> rest.path == old(rest.path)
      ensures rest != null && below ==>
                rest.path == R.AppendEach(old(rest.path), ComponentsOf(old(child.path))[|ComponentsOf(old(path))|..])
    {
      hide P.Components, R.AppendEach;
      var mine := this.GetComponents();
      var theirs := child.GetComponents();
      if |mine| == 0 || |mine| >= |theirs| {
        return false;
      }
      var i := 0;
      while i < |mine|
        invariant 0 <= i <= |mine| && mine[..i] == theirs[..i]
      {
        if mine[i] != theirs[i] {
          assert theirs[..|mine|][i] == theirs[i];
          return false;
        }
        i := i + 1;
      }
      if rest != null {
        P.ComponentsAreRelative(child.path);
        assert theirs[|mine|..] == theirs[1..][|mine| - 1..];
        rest.AppendAll(theirs[|mine|..]);
      }
      below := true;
    }

    /** The loop that appends the remaining components. */
    method AppendAll(components: seq<string>)
      requires forall c | c in components :: !P.IsAbsolute(c)
      modifies this
      ensures path == R.AppendEach(old(path), components)
    {
      hide P.Append;
      assert components[0..] == components;
      for i := 0 to |components|
        invariant R.AppendEach(path, components[i..]) == R.AppendEach(old(path), components)
      {
        assert components[i..][1..] == components[i + 1..];
        var joined := this.Append(components[i]);
        path := joined.path;
      }
    }

    method IsParent(child: FilePath) returns (parent: bool)
      ensures parent <==> path != "" && child.path != ""
                          && P.IsStrictPrefix(P.Components(path), P.Components(child.path))
    {
      parent := AppendRelativePath(child, null);
    }

    static method ExtensionSeparatorPosition(path: string) returns (dot: int)
      ensures dot == P.ExtensionPosition(path)
    {
      if path == "." || path == ".." {
        return -1;
      }
      var last := P.LastIndex(path, '.');
      if last == -1 || last == 0 {
        return last;
      }
      var extension := path[last + 1..];
      var isDouble := false;
      for i := 0 to |P.DOUBLE_EXTENSIONS|
        invariant isDouble <==> exists k | 0 <= k < i :: P.LowerCaseEquals(extension, P.DOUBLE_EXTENSIONS[k])
      {
        if P.LowerCaseEquals(extension, P.DOUBLE_EXTENSIONS[i]) {
          isDouble := true;
        }
      }
      if !isDouble {
        return last;
      }
      var penultimate := P.LastIndex(path[..last], '.');
      var separator := P.LastIndex(path[..last], '/');
      if penultimate != -1 && (separator == -1 || penultimate > separator)
         && last - penultimate <= 5 && last - penultimate > 1 {
        return penultimate;
      }
      return last;
    }

    method Extension() returns (extension: string)
      ensures extension == P.Extension(path)
    {
      var base := BaseName();
      var dot := ExtensionSeparatorPosition(base.path);
      extension := if dot == -1 then "" else base.path[dot..];
    }

    method RemoveExtension() returns (rest: FilePath)
      ensures rest.path == P.RemoveExtension(path)
    {
      var extension := Extension();
      var dot := ExtensionSeparatorPosition(path);
      rest := new FilePath(if extension == "" || dot == -1 then path else path[..dot]);
    }
  }
}
