/** Composite names: how `NameImpl` turns text into components and components into text. */
module Names {
  import opened Strings

  type Path = seq<string>

  const DELIMITER := '/'

  predicate SlashFree(s: string) {
    DELIMITER !in s
  }

  /** The components of a name given as text: `String.split` drops trailing empty pieces. */
  function Parse(s: string): Path {
    if s == "" then [] else Split(s, DELIMITER)
  }

  /** The text of a name given by its components. */
  function Print(cs: Path): string {
    Join(cs, DELIMITER)
  }

  /** The components every parsed name has. */
  predicate Canonical(cs: Path) {
    && (forall i :: 0 <= i < |cs| ==> SlashFree(cs[i]))
    && (cs != [] ==> cs[|cs| - 1] != "")
  }

  lemma ParseIsCanonical(s: string)
    ensures Canonical(Parse(s))
  {
    if s != "" {
      var r := Parse(s);
      assert forall i :: 0 <= i < |r| ==> r[i] == Pieces(s, DELIMITER)[i];
    }
  }

  /** The components of a printed name are the ones it was printed from exactly when they are canonical. */
  lemma ParsePrint(cs: Path)
    ensures Parse(Print(cs)) == cs <==> Canonical(cs)
  {
    ParseIsCanonical(Print(cs));
    if Canonical(cs) && cs != [] {
      PiecesOfJoin(cs, DELIMITER);
      PrintNotEmpty(cs);
    }
  }

  /** Slashes part the components; one in front leaves an empty one, those at the end leave none. */
  lemma SlashesPart()
    ensures Parse("a/bc") == ["a", "bc"] && Print(["a", "bc"]) == "a/bc"
    ensures Parse("/a") == ["", "a"] && Parse("a//b") == ["a", "", "b"] && Parse("a//") == ["a"]
    ensures Parse("") == [] && Parse("/") == []
  {
    assert Print(["a", "bc"]) == "a/bc" && Print(["", "a"]) == "/a" && Print(["a", "", "b"]) == "a//b" by {
      assert Join(["a"], '/') == "a" && Join(["bc"], '/') == "bc" && Join(["b"], '/') == "b" && Join(["", "b"], '/') == "/b";
      assert ["a", "bc"][1..] == ["bc"] && ["", "a"][1..] == ["a"] && ["a", "", "b"][1..] == ["", "b"] && ["", "b"][1..] == ["b"];
    }
    ParsePrint(["a", "bc"]);
    ParsePrint(["", "a"]);
    ParsePrint(["a", "", "b"]);
    TrailingSlashes();
  }

  lemma TrailingSlashes()
    ensures Parse("a//") == ["a"] && Parse("") == [] && Parse("/") == []
  {
    assert Join([""], '/') == "" && Join(["", ""], '/') == "/" && Join(["a", "", ""], '/') == "a//" by {
      assert ["", ""][1..] == [""] && ["a", "", ""][1..] == ["", ""];
    }
    PiecesOfJoin(["", ""], '/');
    PiecesOfJoin(["a", "", ""], '/');
    assert ["a", "", ""][..2] == ["a", ""] && ["a", ""][..1] == ["a"] && ["", ""][..1] == [""] && [""][..0] == [];
    assert DropTrailingEmpty(["a", "", ""]) == DropTrailingEmpty(["a", ""]) == DropTrailingEmpty(["a"]) == ["a"];
    assert DropTrailingEmpty(["", ""]) == DropTrailingEmpty([""]) == DropTrailingEmpty([]) == [];
  }

  lemma PrintNotEmpty(cs: Path)
    requires cs != [] && cs[|cs| - 1] != ""
    ensures Print(cs) != ""
  {
  }

  lemma {:induction false} LastPiece(s: string)
    requires s != ""
    ensures var r := Pieces(s, DELIMITER); r[|r| - 1] == "" <==> s[|s| - 1] == DELIMITER
  {
    if |s| == 1 {
      assert Pieces(s[1..], DELIMITER) == [""];
    } else {
      LastPiece(s[1..]);
      assert s[1..][|s[1..]| - 1] == s[|s| - 1];
      var r := Pieces(s[1..], DELIMITER);
      if |r| == 1 && s[0] != DELIMITER {
        assert r == Pieces(s[1..], DELIMITER);
        if r[0] == "" {
          assert Print(r) == "";
          JoinOfPieces(s[1..], DELIMITER);
        }
      }
    }
  }

  lemma {:induction false} PrintShorter(cs: Path)
    requires cs != []
    ensures |Print(cs[..|cs| - 1])| < |Print(cs)| || cs == [""]
  {
    if |cs| > 1 {
      var front := cs[..|cs| - 1];
      assert front[1..] == cs[1..][..|cs| - 2];
      PrintShorter(cs[1..]);
    }
  }

  /** A text is what its components print exactly when it does not end in a slash. */
  lemma PrintParse(s: string)
    ensures Print(Parse(s)) == s <==> s == "" || s[|s| - 1] != DELIMITER
  {
    if s != "" {
      var r := Pieces(s, DELIMITER);
      JoinOfPieces(s, DELIMITER);
      LastPiece(s);
      if s[|s| - 1] == DELIMITER {
        PrintShorter(r);
        DropShortens(r[..|r| - 1]);
      }
    }
  }

  lemma {:induction false} DropShortens(cs: Path)
    ensures |Print(DropTrailingEmpty(cs))| <= |Print(cs)|
  {
    if cs != [] && cs[|cs| - 1] == "" {
      PrintShorter(cs);
      DropShortens(cs[..|cs| - 1]);
    }
  }

  /** The constructor's loop: every component with a slash behind it, less the last slash. */
  method Render(components: Path) returns (name: string)
    ensures name == Print(components)
  {
    var str := "";
    for i := 0 to |components|
      invariant i == 0 ==> str == ""
      invariant i > 0 ==> str == Print(components[..i]) + [DELIMITER]
    {
      JoinAppend(components[..i], DELIMITER, components[i]);
      assert components[..i + 1] == components[..i] + [components[i]];
      str := str + components[i] + [DELIMITER];
    }
    assert components[..|components|] == components;
    name := if |str| > 0 then str[..|str| - 1] else str;
  }

  /** `startsWith` compares component by component. */
  method StartsWith(name: Path, n: Path) returns (r: bool)
    ensures r <==> n <= name
  {
    if |n| > |name| {
      return false;
    }
    for i := 0 to |n|
      invariant n[..i] == name[..i]
    {
      if name[i] != n[i] {
        return false;
      }
    }
    return true;
  }
}
