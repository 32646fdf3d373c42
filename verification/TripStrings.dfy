/** Lists of trip ids kept in one text column: every id is followed by a comma. */
module TripStrings {

  /** The pieces between commas; one more than there are commas. */
  function Pieces(s: string): (r: seq<string>)
    ensures |r| >= 1
  {
    if s == "" then [""]
    else
      var r := Pieces(s[1..]);
      if s[0] == ',' then [""] + r else [[s[0]] + r[0]] + r[1..]
  }

  function DropTrailingEmpty(r: seq<string>): seq<string> {
    if r == [] then [] else if r[|r| - 1] == "" then DropTrailingEmpty(r[..|r| - 1]) else r
  }

  /** Java's `s.split(",")`: a text without comma is its own only piece; otherwise empty pieces at
      the end are dropped. */
  function Split(s: string): seq<string> {
    if ',' !in s then [s] else DropTrailingEmpty(Pieces(s))
  }

  /** The text the servlets write for a list of ids. */
  function Join(ids: seq<string>): string {
    if ids == [] then "" else ids[0] + "," + Join(ids[1..])
  }

  predicate IsId(id: string) {
    id != "" && ',' !in id
  }

  predicate AreIds(ids: seq<string>) {
    forall k :: 0 <= k < |ids| ==> IsId(ids[k])
  }

  lemma {:induction false} JoinAppend(a: seq<string>, b: seq<string>)
    ensures Join(a + b) == Join(a) + Join(b)
    decreases |a|
  {
    if a == [] {
      assert a + b == b;
    } else {
      assert (a + b)[1..] == a[1..] + b;
      JoinAppend(a[1..], b);
      assert a[0] + "," + (Join(a[1..]) + Join(b)) == a[0] + "," + Join(a[1..]) + Join(b);
    }
  }

  /** Appending one id to the text, as the loops do. */
  lemma {:induction false} JoinOne(a: seq<string>, id: string)
    ensures Join(a + [id]) == Join(a) + (id + ",")
  {
    JoinAppend(a, [id]);
    assert [id][1..] == [];
    assert Join([id]) == id + "," + "";
    assert id + "," + "" == id + ",";
  }

  lemma {:induction false} PiecesOfId(id: string, rest: string)
    requires ',' !in id
    ensures Pieces(id + "," + rest) == [id] + Pieces(rest)
    decreases |id|
  {
    var s := id + "," + rest;
    if id == "" {
      assert s[0] == ',' && s[1..] == rest;
    } else {
      assert s[0] == id[0] && s[1..] == id[1..] + "," + rest;
      PiecesOfId(id[1..], rest);
      assert [id[0]] + id[1..] == id;
    }
  }

  lemma {:induction false} PiecesOfJoin(ids: seq<string>)
    requires AreIds(ids)
    ensures Pieces(Join(ids)) == ids + [""]
    decreases |ids|
  {
    if ids != [] {
      PiecesOfJoin(ids[1..]);
      PiecesOfId(ids[0], Join(ids[1..]));
      assert [ids[0]] + (ids[1..] + [""]) == ids + [""];
    }
  }

  /** Splitting the text gives back the ids. */
  lemma {:induction false} SplitOfJoin(ids: seq<string>)
    requires AreIds(ids) && ids != []
    ensures Split(Join(ids)) == ids && Join(ids) != ""
  {
    PiecesOfJoin(ids);
    assert Join(ids)[|ids[0]|] == ',';
    var r := ids + [""];
    assert r[..|r| - 1] == ids && r[|r| - 1] == "";
    assert IsId(ids[|ids| - 1]);
    assert DropTrailingEmpty(r) == DropTrailingEmpty(ids) == ids;
  }

  /** A text stands for at most one list of ids. */
  lemma {:induction false} JoinInjective(a: seq<string>, b: seq<string>)
    requires AreIds(a) && AreIds(b) && Join(a) == Join(b)
    ensures a == b
  {
    PiecesOfJoin(a);
    PiecesOfJoin(b);
    assert a == (a + [""])[..|a|] && b == (b + [""])[..|b|];
    assert |a + [""]| == |b + [""]|;
  }

  // ----- what splitting does to any text -----

  /** The pieces with commas between them, and none at the end. */
  function Between(pieces: seq<string>): string
    requires pieces != []
  {
    if |pieces| == 1 then pieces[0] else pieces[0] + "," + Between(pieces[1..])
  }

  predicate CommaFree(pieces: seq<string>) {
    forall k :: 0 <= k < |pieces| ==> ',' !in pieces[k]
  }

  function Empties(n: nat): (r: seq<string>)
    ensures |r| == n && forall k :: 0 <= k < n ==> r[k] == ""
  {
    seq(n, _ => "")
  }

  lemma {:induction false} PiecesOfWord(s: string)
    requires ',' !in s
    ensures Pieces(s) == [s]
    decreases |s|
  {
    if s != "" {
      PiecesOfWord(s[1..]);
      assert [s[0]] + s[1..] == s;
    }
  }

  lemma {:induction false} PiecesOfBetween(pieces: seq<string>)
    requires pieces != [] && CommaFree(pieces)
    ensures Pieces(Between(pieces)) == pieces
    ensures ',' in Between(pieces) <==> |pieces| > 1
    decreases |pieces|
  {
    if |pieces| == 1 {
      PiecesOfWord(pieces[0]);
    } else {
      PiecesOfBetween(pieces[1..]);
      PiecesOfId(pieces[0], Between(pieces[1..]));
      assert [pieces[0]] + pieces[1..] == pieces;
      assert Between(pieces)[|pieces[0]|] == ',';
    }
  }

  lemma {:induction false} DropsTheEnd(core: seq<string>, n: nat)
    requires core == [] || core[|core| - 1] != ""
    ensures DropTrailingEmpty(core + Empties(n)) == core
    decreases n
  {
    var r := core + Empties(n);
    if n > 0 {
      assert r[..|r| - 1] == core + Empties(n - 1);
      DropsTheEnd(core, n - 1);
    } else {
      assert r == core;
    }
  }

  /** Splitting keeps every piece in front of the last that is not empty, empty ones included, and
      drops the empty ones behind it; a text without comma is its own only piece. */
  lemma {:induction false} SplitExactly(core: seq<string>, n: nat)
    requires CommaFree(core) && (core == [] || core[|core| - 1] != "") && |core| + n > 0
    ensures Split(Between(core + Empties(n))) == if core == [] && n == 1 then [""] else core
  {
    PiecesOfBetween(core + Empties(n));
    DropsTheEnd(core, n);
    assert core == [] && n == 1 ==> core + Empties(n) == [""];
    assert |core| == 1 && n == 0 ==> core + Empties(n) == core;
  }

  lemma {:induction false} EndsOfPieces(r: seq<string>) returns (core: seq<string>, n: nat)
    ensures r == core + Empties(n) && (core == [] || core[|core| - 1] != "")
    decreases |r|
  {
    if r == [] || r[|r| - 1] != "" {
      core, n := r, 0;
      assert r == core + Empties(0);
    } else {
      core, n := EndsOfPieces(r[..|r| - 1]);
      n := n + 1;
      assert r == r[..|r| - 1] + [""];
      assert Empties(n) == Empties(n - 1) + [""];
    }
  }

  lemma {:induction false} BetweenPieces(s: string)
    ensures CommaFree(Pieces(s)) && Between(Pieces(s)) == s
    decreases |s|
  {
    if s != "" {
      var r := Pieces(s[1..]);
      BetweenPieces(s[1..]);
      if s[0] == ',' {
        assert ([""] + r)[1..] == r && "" + "," + s[1..] == s;
      } else {
        assert ([[s[0]] + r[0]] + r[1..])[1..] == r[1..];
        assert [s[0]] + s[1..] == s;
      }
    }
  }

  /** There is no other text. */
  lemma {:induction false} EveryText(s: string) returns (core: seq<string>, n: nat)
    ensures CommaFree(core) && (core == [] || core[|core| - 1] != "") && |core| + n > 0
    ensures s == Between(core + Empties(n))
  {
    BetweenPieces(s);
    core, n := EndsOfPieces(Pieces(s));
    assert forall k :: 0 <= k < |core| ==> core[k] == Pieces(s)[k];
  }

  function Commas(n: nat): string {
    if n == 0 then "" else "," + Commas(n - 1)
  }

  lemma {:induction false} BetweenEmpties(last: string, n: nat)
    ensures Between([last] + Empties(n)) == last + Commas(n)
    decreases n
  {
    if n == 0 {
      assert [last] + Empties(0) == [last];
    } else {
      BetweenEmpties("", n - 1);
      assert ([last] + Empties(n))[1..] == [""] + Empties(n - 1);
    }
  }

  lemma {:induction false} BetweenNames(a: seq<string>, last: string, n: nat)
    ensures Between(a + ([last] + Empties(n))) == Join(a) + last + Commas(n)
    decreases |a|
  {
    var r := a + ([last] + Empties(n));
    if a == [] {
      BetweenEmpties(last, n);
      assert r == [last] + Empties(n);
    } else {
      BetweenNames(a[1..], last, n);
      assert r[1..] == a[1..] + ([last] + Empties(n));
      assert a[0] + "," + (Join(a[1..]) + last + Commas(n)) == a[0] + "," + Join(a[1..]) + last + Commas(n);
    }
  }

  /** Names with commas between them, and any number of commas behind the last, are those names. */
  lemma {:induction false} SplitOfNames(a: seq<string>, last: string, n: nat)
    requires AreIds(a) && IsId(last)
    ensures Split(Join(a) + last + Commas(n)) == a + [last]
  {
    BetweenNames(a, last, n);
    SplitExactly(a + [last], n);
    assert a + [last] + Empties(n) == a + ([last] + Empties(n));
  }

  /** A list stored without its last comma fuses with what is appended to it. */
  lemma {:induction false} MissingCommaFuses(a: seq<string>, last: string, id: string)
    requires AreIds(a) && IsId(last) && IsId(id)
    ensures Split(Join(a) + last + (id + ",")) == a + [last + id]
  {
    JoinOne(a, last + id);
    assert Join(a) + (last + id + ",") == Join(a) + last + (id + ",");
    SplitOfJoin(a + [last + id]);
  }

  /** Appending an id to the text of a list, complete or without its last comma, adds the id to the
      list exactly when the text is empty or ends in a comma. */
  lemma {:induction false} AppendsExactly(a: seq<string>, last: string, id: string)
    requires AreIds(a) && IsId(id) && (last == "" || IsId(last))
    ensures var text := Join(a) + last;
            var ids := if last == "" then a else a + [last];
            Split(text + (id + ",")) == ids + [id] <==> text == "" || text[|text| - 1] == ','
  {
    var text := Join(a) + last;
    if last == "" {
      assert text == Join(a);
      JoinEndsInComma(a);
      JoinOne(a, id);
      SplitOfJoin(a + [id]);
    } else {
      MissingCommaFuses(a, last, id);
      assert text[|text| - 1] == last[|last| - 1];
      assert |a + [last + id]| != |a + [last] + [id]|;
    }
  }

  lemma {:induction false} JoinEndsInComma(a: seq<string>)
    ensures a == [] || (Join(a) != "" && Join(a)[|Join(a)| - 1] == ',')
    decreases |a|
  {
    if |a| > 1 {
      JoinEndsInComma(a[1..]);
    }
  }
}
