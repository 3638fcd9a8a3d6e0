/**
  gen_gitignore: compose the output from an index and an ordered list of
  requested names. Each requested template becomes a section, a header line
  followed by the stored body unchanged; every section but the first is preceded
  by a newline. A name missing from the index aborts the whole composition.
*/
module Composer {
  import opened Results

  /** The header line of a section. */
  function Header(name: string): string {
    "### " + name + " ###\n"
  }

  /**
    The specification of gen_gitignore, as a fold over the requests in order: the
    result for a list is the result for all but its last name, extended by the last
    name's section, and any error met earlier is kept.
  */
  function Compose(data: map<string, string>, args: seq<string>): Result<string>
    decreases |args|
  {
    if args == [] then Ok("")
    else match Compose(data, args[..|args| - 1])
      case Err(e) => Err(e)
      case Ok(s) =>
        var name := args[|args| - 1];
        if name in data then Ok(s + (if |args| > 1 then "\n" else "") + Header(name) + data[name])
        else Err(NotFound(name))
  }

  /** gen_gitignore: one pass over the requests, appending to a buffer, returning early on a missing name. */
  method GenGitignore(data: map<string, string>, args: seq<string>) returns (r: Result<string>)
    ensures r == Compose(data, args)
  {
    var gitignore := "";
    for i := 0 to |args|
      invariant forall j :: 0 <= j < i ==> args[j] in data
      invariant Compose(data, args[..i]) == Ok(gitignore)
    {
      assert args[..i + 1][..i] == args[..i];
      if args[i] in data {
        ghost var before := gitignore;
        var content := data[args[i]];
        if i > 0 {
          gitignore := gitignore + "\n";
        }
        gitignore := gitignore + Header(args[i]);
        gitignore := gitignore + content;
        assert gitignore == before + (if i > 0 then "\n" else "") + Header(args[i]) + content;
      } else {
        ComposeReportsFirstMissing(data, args, i);
        return Err(NotFound(args[i]));
      }
    }
    assert args[..|args|] == args;
    return Ok(gitignore);
  }

  /** Composition succeeds exactly when every requested name is in the index. */
  lemma {:induction false} ComposeOkIff(data: map<string, string>, args: seq<string>)
    ensures Compose(data, args).Ok? <==> forall i :: 0 <= i < |args| ==> args[i] in data
    decreases |args|
  {
    if args != [] {
      var init := args[..|args| - 1];
      ComposeOkIff(data, init);
      assert forall i :: 0 <= i < |init| ==> init[i] == args[i];
    }
  }

  /** A missing name makes the whole composition fail with the first missing name in list order. */
  lemma {:induction false} ComposeReportsFirstMissing(data: map<string, string>, args: seq<string>, k: nat)
    requires k < |args| && args[k] !in data
    requires forall j :: 0 <= j < k ==> args[j] in data
    ensures Compose(data, args) == Err(NotFound(args[k]))
    decreases |args|
  {
    var init := args[..|args| - 1];
    assert forall i :: 0 <= i < |init| ==> init[i] == args[i];
    if k == |args| - 1 {
      ComposeOkIff(data, init);
    } else {
      ComposeReportsFirstMissing(data, init, k);
    }
  }

  /** The sections of the requests, each a header followed by the stored body, in request order. */
  function Sections(data: map<string, string>, args: seq<string>): seq<string>
    requires forall i :: 0 <= i < |args| ==> args[i] in data
  {
    seq(|args|, i requires 0 <= i < |args| && args[i] in data => Header(args[i]) + data[args[i]])
  }

  /** The parts of a list, separated by `sep`. */
  function Join(parts: seq<string>, sep: string): string
    decreases |parts|
  {
    if |parts| == 0 then ""
    else if |parts| == 1 then parts[0]
    else parts[0] + sep + Join(parts[1..], sep)
  }

  lemma {:induction false} JoinAppend(a: seq<string>, b: seq<string>, sep: string)
    requires a != [] && b != []
    ensures Join(a + b, sep) == Join(a, sep) + sep + Join(b, sep)
    decreases |a|
  {
    if |a| == 1 {
      assert (a + b)[1..] == b;
    } else {
      assert (a + b)[1..] == a[1..] + b;
      JoinAppend(a[1..], b, sep);
    }
  }

  /**
    When every name is found, the output is the sections in request order joined by
    newlines: bodies verbatim, duplicates repeated, no separator before the first.
  */
  lemma {:induction false} ComposeAllFound(data: map<string, string>, args: seq<string>)
    requires forall i :: 0 <= i < |args| ==> args[i] in data
    ensures Compose(data, args) == Ok(Join(Sections(data, args), "\n"))
    decreases |args|
  {
    if args != [] {
      var n := |args| - 1;
      var init := args[..n];
      assert forall i :: 0 <= i < |init| ==> init[i] == args[i];
      ComposeAllFound(data, init);
      var last := Header(args[n]) + data[args[n]];
      assert Sections(data, args) == Sections(data, init) + [last];
      if n > 0 {
        JoinAppend(Sections(data, init), [last], "\n");
        assert Join(Sections(data, init), "\n") + "\n" + Header(args[n]) + data[args[n]]
            == Join(Sections(data, init), "\n") + "\n" + last;
      } else {
        assert "" + "" + Header(args[n]) + data[args[n]] == last;
      }
    }
  }

  /** Composing two lists that both succeed gives their outputs separated by one newline. */
  lemma ComposeAppend(data: map<string, string>, a: seq<string>, b: seq<string>)
    requires a != [] && b != []
    requires Compose(data, a).Ok? && Compose(data, b).Ok?
    ensures Compose(data, a + b) == Ok(Compose(data, a).value + "\n" + Compose(data, b).value)
  {
    ComposeOkIff(data, a);
    ComposeOkIff(data, b);
    assert forall i :: 0 <= i < |a + b| ==> (a + b)[i] in data by {
      forall i | 0 <= i < |a + b| ensures (a + b)[i] in data {
        if i >= |a| { assert (a + b)[i] == b[i - |a|]; }
      }
    }
    ComposeAllFound(data, a);
    ComposeAllFound(data, b);
    ComposeAllFound(data, a + b);
    assert Sections(data, a + b) == Sections(data, a) + Sections(data, b);
    JoinAppend(Sections(data, a), Sections(data, b), "\n");
  }

  /** The position of the first requested name missing from the index. */
  function FirstMissing(data: map<string, string>, args: seq<string>): (k: nat)
    requires exists i :: 0 <= i < |args| && args[i] !in data
    ensures k < |args| && args[k] !in data
    ensures forall j :: 0 <= j < k ==> args[j] in data
    decreases |args|
  {
    if args[0] !in data then 0
    else
      assert exists i :: 0 <= i < |args[1..]| && args[1..][i] !in data by {
        var i :| 0 <= i < |args| && args[i] !in data;
        assert args[1..][i - 1] == args[i];
      }
      1 + FirstMissing(data, args[1..])
  }

  /** A failure in a prefix of the requests is the failure of the whole list. */
  lemma ComposeErrorPrefix(data: map<string, string>, a: seq<string>, b: seq<string>)
    requires Compose(data, a).Err?
    ensures Compose(data, a + b) == Compose(data, a)
  {
    ComposeOkIff(data, a);
    var k := FirstMissing(data, a);
    ComposeReportsFirstMissing(data, a, k);
    assert forall j :: 0 <= j <= k ==> (a + b)[j] == a[j];
    ComposeReportsFirstMissing(data, a + b, k);
  }

  /** No requests give the empty document. */
  lemma ComposeEmpty(data: map<string, string>)
    ensures Compose(data, []) == Ok("")
  {
  }

  /** A single found name gives its header and body with no leading separator. */
  lemma ComposeSingle(data: map<string, string>, name: string)
    requires name in data
    ensures Compose(data, [name]) == Ok("### " + name + " ###\n" + data[name])
  {
    assert [name][..0] == [];
    assert "" + "" + Header(name) + data[name] == "### " + name + " ###\n" + data[name];
  }

  /** Two found names: the separator between sections. */
  lemma ComposeTwoExample()
    ensures Compose(map["a" := "X\n", "b" := "Y\n"], ["a", "b"]) == Ok("### a ###\nX\n\n### b ###\nY\n")
  {
    var data := map["a" := "X\n", "b" := "Y\n"];
    assert ["a", "b"][..1] == ["a"];
    ComposeSingle(data, "a");
    assert data["a"] == "X\n" && "b" in data && data["b"] == "Y\n" && ["a", "b"][1] == "b";
    assert "### " + "a" + " ###\n" == "### a ###\n";
    assert Compose(data, ["a"]) == Ok("### a ###\n" + "X\n");
    assert "### a ###\n" + "X\n" + "\n" + Header("b") + "Y\n" == "### a ###\nX\n\n### b ###\nY\n";
  }

  /** A missing name in the middle: no section at all is produced. */
  lemma ComposeMissingExample()
    ensures Compose(map["node" := "N", "rust" := "R"], ["node", "doesnotexist", "rust"]) == Err(NotFound("doesnotexist"))
  {
    ComposeReportsFirstMissing(map["node" := "N", "rust" := "R"], ["node", "doesnotexist", "rust"], 1);
  }
}
