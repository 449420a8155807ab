/** Text as Java and JavaScript strings have it: letter case, joining and splitting. */
module Strings {

  function Lower(c: char): char {
    if 'A' <= c <= 'Z' then c + ('a' - 'A') else c
  }

  function Upper(c: char): char {
    if 'a' <= c <= 'z' then c - ('a' - 'A') else c
  }

  const CAPITALS := "ABCDEFGHIJKLMNOPQRSTUVWXYZ"
  const SMALLS := "abcdefghijklmnopqrstuvwxyz"

  /** Case is that of the English alphabet; whatever is no letter of it has none. */
  lemma CaseMeans(c: char)
    ensures forall i :: 0 <= i < 26 ==> Lower(CAPITALS[i]) == SMALLS[i] && Upper(SMALLS[i]) == CAPITALS[i]
    ensures c !in CAPITALS ==> Lower(c) == c
    ensures c !in SMALLS ==> Upper(c) == c
  {
    if 'A' <= c <= 'Z' {
      assert CAPITALS[c as int - 'A' as int] == c;
    }
    if 'a' <= c <= 'z' {
      assert SMALLS[c as int - 'a' as int] == c;
    }
  }

  /** All pieces between the delimiters, empty ones included. */
  function Pieces(s: string, d: char): (r: seq<string>)
    ensures r != [] && forall i :: 0 <= i < |r| ==> d !in r[i]
  {
    if s == "" then [""]
    else
      var r := Pieces(s[1..], d);
      if s[0] == d then [""] + r else [[s[0]] + r[0]] + r[1..]
  }

  function DropTrailingEmpty(cs: seq<string>): (r: seq<string>)
    ensures r <= cs && (r != [] ==> r[|r| - 1] != "")
  {
    if cs != [] && cs[|cs| - 1] == "" then DropTrailingEmpty(cs[..|cs| - 1]) else cs
  }

  /** `String.split`, which drops empty pieces at the end. */
  function Split(s: string, d: char): (r: seq<string>)
    requires s != ""
  {
    DropTrailingEmpty(Pieces(s, d))
  }

  /** The inverse: `cs` with a delimiter between each two. */
  function Join(cs: seq<string>, d: char): string {
    if cs == [] then "" else if |cs| == 1 then cs[0] else cs[0] + [d] + Join(cs[1..], d)
  }

  lemma {:induction false} PiecesOfJoin(cs: seq<string>, d: char)
    requires cs != [] && forall i :: 0 <= i < |cs| ==> d !in cs[i]
    ensures Pieces(Join(cs, d), d) == cs
    decreases |cs|, if cs == [] then 0 else |cs[0]|
  {
    var s := Join(cs, d);
    if cs[0] != "" {
      var shorter := [cs[0][1..]] + cs[1..];
      assert s[1..] == Join(shorter, d) by {
        assert shorter[1..] == cs[1..];
      }
      PiecesOfJoin(shorter, d);
      assert [s[0]] + shorter[0] == cs[0] && shorter[1..] == cs[1..];
    } else if |cs| > 1 {
      assert s[0] == d && s[1..] == Join(cs[1..], d);
      PiecesOfJoin(cs[1..], d);
    } else {
      assert cs == [""];
    }
  }

  lemma {:induction false} JoinOfPieces(s: string, d: char)
    ensures Join(Pieces(s, d), d) == s
  {
    if s != "" {
      var r := Pieces(s[1..], d);
      JoinOfPieces(s[1..], d);
      if s[0] == d {
        assert ([""] + r)[1..] == r;
      } else {
        assert ([[s[0]] + r[0]] + r[1..])[1..] == r[1..];
      }
    }
  }

  lemma {:induction false} JoinAppend(cs: seq<string>, d: char, c: string)
    ensures Join(cs + [c], d) == if cs == [] then c else Join(cs, d) + [d] + c
  {
    if cs == [] {
      assert cs + [c] == [c];
    } else {
      assert (cs + [c])[1..] == cs[1..] + [c];
      JoinAppend(cs[1..], d, c);
      if |cs| == 1 {
        assert cs[1..] == [];
      }
    }
  }

  lemma {:induction false} JoinHolds(cs: seq<string>, d: char, c: char)
    requires c != d && forall i :: 0 <= i < |cs| ==> c !in cs[i]
    ensures c !in Join(cs, d)
  {
    if |cs| > 1 {
      JoinHolds(cs[1..], d, c);
    }
  }
}
