/**
  The pure helpers of the index builder, on a single file name (the last component
  of an entry's path): the prune test, the extension and stem that Rust's `Path`
  computes, and the lowercasing of keys (over ASCII).
*/
module PathNames {
  import opened Results

  /** The extension a template file must carry, exactly. */
  const TemplateExtension: string := "gitignore"

  /**
    The two directory names whose whole subtree the walk skips. Both are dot-names
    without an extension, so neither is ever taken for a template.
  */
  predicate IsGit(name: string): (r: bool)
    ensures r ==> |name| > 0 && name[0] == '.' && Extension(name) == None && FileStem(name) == Some(name)
  {
    name == ".git" || name == ".github"
  }

  /** A path ending in "" (the root "/") or ".." has no file name, hence no stem and no extension. */
  predicate NoFileName(name: string) {
    name == "" || name == ".."
  }

  /** The position of the last '.' in `name`, if any. */
  function LastDot(name: string): (r: Option<nat>)
    ensures r.Some? ==> r.value < |name| && name[r.value] == '.'
    ensures r.Some? ==> forall j :: r.value < j < |name| ==> name[j] != '.'
    ensures r.None? ==> forall j :: 0 <= j < |name| ==> name[j] != '.'
  {
    if name == [] then None
    else if name[|name| - 1] == '.' then Some(|name| - 1)
    else LastDot(name[..|name| - 1])
  }

  /**
    `Path::extension`: the text after the last '.', unless that dot is the first
    character (".gitignore" has no extension) or there is no dot at all.
  */
  function Extension(name: string): (r: Option<string>)
    ensures NoFileName(name) ==> r.None?
    ensures r.None? && !NoFileName(name) ==> forall j :: 0 < j < |name| ==> name[j] != '.'
    ensures r.Some? ==>
              |r.value| + 1 < |name| && name[|name| - |r.value| - 1..] == "." + r.value &&
              forall j :: 0 <= j < |r.value| ==> r.value[j] != '.'
  {
    if NoFileName(name) then None
    else match LastDot(name)
      case None => None
      case Some(p) =>
        if p == 0 then None
        else
          assert name[p..] == "." + name[p + 1..];
          Some(name[p + 1..])
  }

  /**
    `Path::file_stem`: the text before the last '.', or the whole name when it has no
    extension. Stem and extension split the name at one dot.
  */
  function FileStem(name: string): (r: Option<string>)
    ensures r.None? <==> NoFileName(name)
    ensures r.Some? && Extension(name).None? ==> r.value == name
    ensures r.Some? && Extension(name).Some? ==>
              r.value != "" && name == r.value + "." + Extension(name).value
  {
    if NoFileName(name) then None
    else match LastDot(name)
      case None => Some(name)
      case Some(p) =>
        if p == 0 then Some(name)
        else
          assert name == name[..p] + "." + name[p + 1..];
          Some(name[..p])
  }

  /**
    A name has the template extension exactly when it ends in ".gitignore" with at
    least one character before that, and then its stem is what precedes the suffix.
  */
  lemma TemplateExtensionIff(name: string)
    ensures Extension(name) == Some(TemplateExtension) <==>
              (|name| > 10 && name[|name| - 10..] == "." + TemplateExtension)
    ensures Extension(name) == Some(TemplateExtension) ==> FileStem(name) == Some(name[..|name| - 10])
  {
    var suffix := "." + TemplateExtension;
    if |name| > 10 && name[|name| - 10..] == suffix {
      var p := |name| - 10;
      assert name[p] == '.' by { assert name[p] == name[p..][0]; }
      forall j | p < j < |name| ensures name[j] != '.' {
        assert name[j] == suffix[j - p];
      }
      assert !NoFileName(name);
      assert LastDot(name) == Some(p);
      assert name[p + 1..] == TemplateExtension;
    }
    if Extension(name) == Some(TemplateExtension) {
      var p := LastDot(name).value;
      assert p > 0 && name[p + 1..] == TemplateExtension;
      assert p == |name| - 10;
      assert name[|name| - 10..] == [name[p]] + name[p + 1..];
    }
  }

  predicate IsUpperAscii(c: char) {
    'A' <= c <= 'Z'
  }

  function ToLowerChar(c: char): char {
    if IsUpperAscii(c) then (c as int + 32) as char else c
  }

  /** The string contains no upper-case ASCII letter. */
  predicate IsLowercase(s: string) {
    forall i :: 0 <= i < |s| ==> !IsUpperAscii(s[i])
  }

  /** `str::to_lowercase`, restricted to ASCII letters. */
  function ToLower(s: string): (r: string)
    ensures |r| == |s|
    ensures IsLowercase(r)
    ensures forall i :: 0 <= i < |s| && !IsUpperAscii(s[i]) ==> r[i] == s[i]
    ensures forall i :: 0 <= i < |s| && IsUpperAscii(s[i]) ==> r[i] as int == s[i] as int + ('a' as int - 'A' as int)
    ensures IsLowercase(s) ==> r == s
  {
    seq(|s|, i requires 0 <= i < |s| => ToLowerChar(s[i]))
  }

  /** "Python.gitignore" is a template whose key is "python". */
  lemma PythonKeyExample()
    ensures Extension("Python.gitignore") == Some(TemplateExtension)
    ensures FileStem("Python.gitignore") == Some("Python")
    ensures ToLower("Python") == "python"
  {
    var name := "Python.gitignore";
    assert |name| == 16 && name[6..] == "." + TemplateExtension;
    TemplateExtensionIff(name);
    assert name[..6] == "Python";
    LowerPython();
  }

  lemma LowerPython()
    ensures ToLower("Python") == "python"
  {
    var r := ToLower("Python");
    assert r[0] == 'p' && r[1] == 'y' && r[2] == 't' && r[3] == 'h' && r[4] == 'o' && r[5] == 'n';
  }

  /** "C++.gitignore" is a template whose key is "c++". */
  lemma CppKeyExample()
    ensures Extension("C++.gitignore") == Some(TemplateExtension)
    ensures FileStem("C++.gitignore") == Some("C++")
    ensures ToLower("C++") == "c++"
  {
    TemplateExtensionIff("C++.gitignore");
    assert "C++.gitignore"[..3] == "C++";
    var r := ToLower("C++");
    assert r[0] == 'c';
  }

  /** A name made of the leading dot and the suffix alone has no extension. */
  lemma DotfileExample()
    ensures Extension(".gitignore") == None
  {
    TemplateExtensionIff(".gitignore");
    var r := LastDot(".gitignore");
    assert r.Some? by { assert ".gitignore"[0] == '.'; }
    assert r.value == 0;
  }
}
