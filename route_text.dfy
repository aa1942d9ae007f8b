/** The string form of a route: station names joined by ", ", and the
    `String.split(", ")` and `List.indexOf` that read it back. */
module RouteText {

  const Separator: string := ", "

  /** A name that can stand between separators and be read back unchanged. */
  predicate IsPlainName(s: string)
  {
    |s| > 0 && ',' !in s && ' ' !in s
  }

  /** The names in order, with a separator between neighbours (what the
      `StringBuilder` in `addTrain` holds once every station is appended). It
      starts with the first character of the first name and ends with the
      last character of the last name. */
  function Join(names: seq<string>): (r: string)
    ensures |names| >= 1 && |names[0]| > 0 ==> |r| > 0 && r[0] == names[0][0]
    ensures |names| >= 1 && |names[|names| - 1]| > 0 ==>
      |r| > 0 && r[|r| - 1] == names[|names| - 1][|names[|names| - 1]| - 1]
  {
    if |names| == 0 then ""
    else if |names| == 1 then names[0]
    else
      var init := names[..|names| - 1];
      assert init[0] == names[0];
      Join(init) + Separator + names[|names| - 1]
  }

  /** The separator occurs somewhere in `s`. */
  predicate HasSeparator(s: string)
  {
    exists i :: 0 <= i < |s| - 1 && s[i] == ',' && s[i + 1] == ' '
  }

  /** The text of `s` cut at every occurrence of the separator, scanning from
      the left; empty pieces are kept. */
  function Pieces(s: string): (r: seq<string>)
    ensures |r| >= 1
    ensures |r| == 1 ==> r == [s]
    decreases |s|
  {
    if |s| >= 2 && s[0] == ',' && s[1] == ' ' then [""] + Pieces(s[2..])
    else if |s| == 0 then [""]
    else
      var rest := Pieces(s[1..]);
      assert |rest| == 1 ==> [s[0]] + rest[0] == s;
      [[s[0]] + rest[0]] + rest[1..]
  }

  /** Removes the empty strings at the end of `p`. */
  function DropTrailingEmpty(p: seq<string>): (r: seq<string>)
    ensures r <= p
    ensures r == [] || r[|r| - 1] != ""
    ensures forall k :: |r| <= k < |p| ==> p[k] == ""
  {
    if p != [] && p[|p| - 1] == "" then DropTrailingEmpty(p[..|p| - 1]) else p
  }

  /** Java's `s.split(", ")`: the whole string when the separator never occurs,
      otherwise the pieces with trailing empty strings removed. */
  function Split(s: string): (r: seq<string>)
    ensures !HasSeparator(s) ==> r == [s]
    ensures HasSeparator(s) ==>
      r <= Pieces(s) && (r == [] || r[|r| - 1] != "") && forall k :: |r| <= k < |Pieces(s)| ==> Pieces(s)[k] == ""
  {
    PiecesSingle(s);
    var p := Pieces(s);
    if |p| == 1 then [s] else DropTrailingEmpty(p)
  }

  /** The string is cut into a single piece exactly when it holds no separator. */
  lemma {:induction false} PiecesSingle(s: string)
    ensures |Pieces(s)| == 1 <==> !HasSeparator(s)
    decreases |s|
  {
    if |s| >= 2 && s[0] == ',' && s[1] == ' ' {
      assert HasSeparator(s);
    } else if |s| > 0 {
      PiecesSingle(s[1..]);
      if HasSeparator(s) {
        var i :| 0 <= i < |s| - 1 && s[i] == ',' && s[i + 1] == ' ';
        assert i > 0 && s[1..][i - 1] == ',' && s[1..][i] == ' ';
      }
      if HasSeparator(s[1..]) {
        var i :| 0 <= i < |s[1..]| - 1 && s[1..][i] == ',' && s[1..][i + 1] == ' ';
        assert s[i + 1] == ',' && s[i + 2] == ' ';
      }
    }
  }

  /** Java's `List.indexOf`: the first position holding `x`, or -1. */
  function IndexOf(s: seq<string>, x: string): (i: int)
    ensures -1 <= i < |s|
    ensures i == -1 <==> x !in s
    ensures 0 <= i ==> s[i] == x && forall j :: 0 <= j < i ==> s[j] != x
  {
    if s == [] then -1
    else if s[0] == x then 0
    else
      var i := IndexOf(s[1..], x);
      if i == -1 then -1 else i + 1
  }

  lemma {:induction false} JoinCons(a: string, names: seq<string>)
    requires |names| >= 1
    ensures Join([a] + names) == a + Separator + Join(names)
    decreases |names|
  {
    var n := |names|;
    if n == 1 {
      assert ([a] + names)[..1] == [a];
    } else {
      assert ([a] + names)[..n] == [a] + names[..n - 1];
      JoinCons(a, names[..n - 1]);
    }
  }

  /** Joining the pieces of any string with the separator rebuilds the string. */
  lemma {:induction false} PiecesRejoin(s: string)
    ensures Join(Pieces(s)) == s
    decreases |s|
  {
    if |s| >= 2 && s[0] == ',' && s[1] == ' ' {
      var tail := Pieces(s[2..]);
      assert Pieces(s) == [""] + tail;
      PiecesRejoin(s[2..]);
      JoinCons("", tail);
      assert s == Separator + s[2..];
    } else if |s| > 0 {
      var rest := Pieces(s[1..]);
      assert Pieces(s) == [[s[0]] + rest[0]] + rest[1..];
      PiecesRejoin(s[1..]);
      if |rest| > 1 {
        JoinGlue(s[0], rest);
        assert s == [s[0]] + s[1..];
      }
    }
  }

  /** Putting a character in front of the first piece puts it in front of
      the joined string. */
  lemma {:induction false} JoinGlue(c: char, pieces: seq<string>)
    requires |pieces| > 1
    ensures Join([[c] + pieces[0]] + pieces[1..]) == [c] + Join(pieces)
  {
    var more := pieces[1..];
    assert pieces == [pieces[0]] + more;
    JoinCons(pieces[0], more);
    JoinCons([c] + pieces[0], more);
  }

  lemma {:induction false} PiecesOfPlain(a: string)
    requires ',' !in a
    ensures Pieces(a) == [a]
    decreases |a|
  {
    if |a| > 0 {
      PiecesOfPlain(a[1..]);
      assert a == [a[0]] + a[1..];
    }
  }

  lemma {:induction false} PiecesAfterPlain(a: string, rest: string)
    requires ',' !in a
    ensures Pieces(a + Separator + rest) == [a] + Pieces(rest)
    decreases |a|
  {
    var s := a + Separator + rest;
    if |a| == 0 {
      assert s == Separator + rest;
      assert s[2..] == rest;
    } else {
      assert s[1..] == a[1..] + Separator + rest;
      PiecesAfterPlain(a[1..], rest);
      assert [s[0]] + a[1..] == a;
    }
  }

  /** Cutting a joined string at its separators gives back the names. */
  lemma {:induction false} PiecesOfJoin(names: seq<string>)
    requires |names| >= 1
    requires forall i :: 0 <= i < |names| ==> ',' !in names[i]
    ensures Pieces(Join(names)) == names
    decreases |names|
  {
    if |names| == 1 {
      PiecesOfPlain(names[0]);
    } else {
      assert names == [names[0]] + names[1..];
      JoinCons(names[0], names[1..]);
      PiecesOfJoin(names[1..]);
      PiecesAfterPlain(names[0], Join(names[1..]));
    }
  }

  /** Splitting the route string that `addTrain` builds gives back exactly the
      station names in their order; an empty route reads back as one empty name. */
  lemma RouteRoundTrip(names: seq<string>)
    requires forall i :: 0 <= i < |names| ==> IsPlainName(names[i])
    ensures Split(Join(names)) == if names == [] then [""] else names
  {
    if names != [] {
      PiecesOfJoin(names);
    }
  }

  /** A route joined from plain names has neither a leading nor a trailing
      separator. */
  lemma JoinHasNoOuterSeparator(names: seq<string>)
    requires |names| >= 1
    requires forall i :: 0 <= i < |names| ==> IsPlainName(names[i])
    ensures !(Separator <= Join(names))
    ensures var r := Join(names); !(|r| >= 2 && r[|r| - 2..] == Separator)
  {
  }
}
