/** Which extensions have two parts. */
module PathExtensions {
  import opened PathAlgebra

  /** The ten spellings of the usual second parts. */
  lemma DoubleExtensionsAre(e: string)
    ensures IsDoubleExtension(e) <==>
            e in {"z", "Z", "gz", "gZ", "Gz", "GZ", "bz2", "bZ2", "Bz2", "BZ2"}
  {
    hide ToLower;
    LettersAre(e);
    assert DOUBLE_EXTENSIONS[0] == "gz" && DOUBLE_EXTENSIONS[1] == "z" && DOUBLE_EXTENSIONS[2] == "bz2";
    assert LowerCaseEquals(e, "gz") <==> |e| == 2 && ToLower(e[0]) == 'g' && ToLower(e[1]) == 'z';
    assert LowerCaseEquals(e, "z") <==> |e| == 1 && ToLower(e[0]) == 'z';
    assert LowerCaseEquals(e, "bz2") <==>
           |e| == 3 && ToLower(e[0]) == 'b' && ToLower(e[1]) == 'z' && ToLower(e[2]) == '2';
    if |e| == 1 {
      assert e == [e[0]];
    } else if |e| == 2 {
      assert e == [e[0], e[1]];
    } else if |e| == 3 {
      assert e == [e[0], e[1], e[2]];
    }
  }

  lemma LettersAre(e: string)
    ensures forall i | 0 <= i < |e| :: ToLower(e[i]) == 'g' <==> e[i] == 'g' || e[i] == 'G'
    ensures forall i | 0 <= i < |e| :: ToLower(e[i]) == 'z' <==> e[i] == 'z' || e[i] == 'Z'
    ensures forall i | 0 <= i < |e| :: ToLower(e[i]) == 'b' <==> e[i] == 'b' || e[i] == 'B'
    ensures forall i | 0 <= i < |e| :: ToLower(e[i]) == '2' <==> e[i] == '2'
  {
  }

  predicate IsPart(e: string) {
    '.' !in e && '/' !in e
  }

  /** Of a base name with two dots at least, the extension is the last part, or the last
      two if the last is one that usually comes second and the other one has one to
      four characters. */
  lemma TwoParts(stem: string, first: string, second: string)
    requires '/' !in stem && IsPart(first) && IsPart(second)
    requires stem != "" || first != "" || second != ""
    ensures var base := stem + "." + first + "." + second;
            ExtensionPosition(base) ==
            if IsDoubleExtension(second) && 1 <= |first| <= 4 then |stem| else |stem| + 1 + |first|
  {
    hide LastIndex, IsDoubleExtension;
    var base := stem + "." + first + "." + second;
    var last := |stem| + 1 + |first|;
    assert base != "." && base != "..";
    assert base[last] == '.' && forall i | last < i < |base| :: base[i] in second;
    LastIndexIs(base, '.', last);
    assert base[..last] == stem + "." + first && base[last + 1..] == second;
    var front := base[..last];
    assert front[|stem|] == '.' && forall i | |stem| < i < |front| :: front[i] in first;
    LastIndexIs(front, '.', |stem|);
    assert forall i | 0 <= i < |front| :: front[i] in stem || front[i] == '.' || front[i] in first;
    NoIndex(front, '/');
  }

  lemma NameIsItsBase(name: string)
    requires name != "" && '/' !in name
    ensures BaseName(name) == name
  {
    assert name[|name| - 1] in name;
    NoIndex(name, '/');
  }

  /** What is cut off, and what stays. */
  lemma ExtensionOfTwo(stem: string, first: string, second: string)
    requires '/' !in stem && IsPart(first) && IsPart(second)
    requires stem != "" || first != "" || second != ""
    ensures var base := stem + "." + first + "." + second;
            if IsDoubleExtension(second) && 1 <= |first| <= 4 then
              Extension(base) == "." + first + "." + second && RemoveExtension(base) == stem
            else Extension(base) == "." + second && RemoveExtension(base) == stem + "." + first
  {
    TwoParts(stem, first, second);
    BaseOfParts(stem, first, second);
    Regroup(stem, first, second);
    hide *;
    var (base, back) := (stem + "." + first + "." + second, "." + first + "." + second);
    if IsDoubleExtension(second) && 1 <= |first| <= 4 {
      CutAt(stem, back, base);
    } else {
      CutAt(stem + "." + first, "." + second, base);
    }
  }

  lemma Regroup(stem: string, first: string, second: string)
    ensures stem + ("." + first + "." + second) == stem + "." + first + "." + second
    ensures stem + "." + first + ("." + second) == stem + "." + first + "." + second
    ensures "." + first + "." + second != "" && "." + second != "" && |stem + "." + first| == |stem| + 1 + |first|
  {
  }

  lemma BaseOfParts(stem: string, first: string, second: string)
    requires '/' !in stem && IsPart(first) && IsPart(second)
    ensures var base := stem + "." + first + "." + second; BaseName(base) == base
  {
    NameIsItsBase(stem + "." + first + "." + second);
  }

  lemma CutAt(front: string, back: string, name: string)
    requires front + back == name && BaseName(name) == name
    requires ExtensionPosition(name) == |front| && back != ""
    ensures Extension(name) == back && RemoveExtension(name) == front
  {
    hide BaseName, ExtensionPosition;
  }

  /** Compressed archives have an extension of two parts; other files have not. */
  lemma ArchiveExtensions()
    ensures Extension("a.tar.gz") == ".tar.gz" && RemoveExtension("a.tar.gz") == "a"
    ensures Extension("a.tar.bz2") == ".tar.bz2" && RemoveExtension("a.tar.bz2") == "a"
    ensures Extension("a.tar.Z") == ".tar.Z" && RemoveExtension("a.tar.Z") == "a"
    ensures Extension("a.tar.txt") == ".txt" && RemoveExtension("a.tar.txt") == "a.tar"
    ensures Extension("a.user.js") == ".js"
  {
    hide Extension, RemoveExtension, IsDoubleExtension;
    DoubleExtensionsAre("gz");
    ExtensionOfTwo("a", "tar", "gz");
    assert "a" + "." + "tar" + "." + "gz" == "a.tar.gz";
    assert "." + "tar" + "." + "gz" == ".tar.gz";
    DoubleExtensionsAre("bz2");
    ExtensionOfTwo("a", "tar", "bz2");
    assert "a" + "." + "tar" + "." + "bz2" == "a.tar.bz2";
    assert "." + "tar" + "." + "bz2" == ".tar.bz2";
    DoubleExtensionsAre("Z");
    ExtensionOfTwo("a", "tar", "Z");
    assert "a" + "." + "tar" + "." + "Z" == "a.tar.Z" && "." + "tar" + "." + "Z" == ".tar.Z";
    DoubleExtensionsAre("txt");
    ExtensionOfTwo("a", "tar", "txt");
    assert "a" + "." + "tar" + "." + "txt" == "a.tar.txt" && "." + "txt" == ".txt" && "a" + "." + "tar" == "a.tar";
    DoubleExtensionsAre("js");
    ExtensionOfTwo("a", "user", "js");
    assert "a" + "." + "user" + "." + "js" == "a.user.js" && "." + "js" == ".js";
  }
}
