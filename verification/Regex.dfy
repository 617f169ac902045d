/** The regular-expression matcher of grep.c. Strings stand for C strings without their terminator. */
module Regex {

  // What a pattern means

  datatype Item = One(c: char) | Star(c: char) | End

  /** A pattern read left to right as the code reads it: a star is looked for before a final '$'. */
  function Items(re: string): seq<Item> {
    if re == [] then []
    else if |re| >= 2 && re[1] == '*' then [Star(re[0])] + Items(re[2..])
    else if re == "$" then [End]
    else [One(re[0])] + Items(re[1..])
  }

  predicate CharFits(c: char, x: char) {
    c == '.' || c == x
  }

  /** The item accepts text[i..j]. */
  ghost predicate ItemFits(item: Item, text: string, i: nat, j: nat) {
    && i <= j <= |text|
    && match item
       case One(c) => j == i + 1 && CharFits(c, text[i])
       case Star(c) => forall k :: i <= k < j ==> CharFits(c, text[k])
       case End => i == j == |text|
  }

  /** The cuts split a stretch of text into one piece for each item. */
  ghost predicate Fits(items: seq<Item>, text: string, cuts: seq<nat>) {
    && |cuts| == |items| + 1 && cuts[|items|] <= |text|
    && forall n :: 0 <= n < |items| ==> ItemFits(items[n], text, cuts[n], cuts[n + 1])
  }

  /** Some stretch of text that starts at i is in the language of the items. */
  ghost predicate Here(items: seq<Item>, text: string, i: nat) {
    exists cuts :: Fits(items, text, cuts) && cuts[0] == i
  }

  /** The line matches: at its start if the pattern begins with '^', anywhere otherwise. */
  ghost predicate Accepts(re: string, text: string) {
    if re != [] && re[0] == '^' then Here(Items(re[1..]), text, 0)
    else exists i: nat :: i <= |text| && Here(Items(re), text, i)
  }

  lemma HereEmpty(text: string, i: nat)
    ensures Here([], text, i) <==> i <= |text|
  {
    if i <= |text| {
      assert Fits([], text, [i]);
    }
  }

  /** The first item takes a piece, the rest follow. */
  lemma HereFirst(item: Item, rest: seq<Item>, text: string, i: nat)
    ensures Here([item] + rest, text, i) <==> exists j: nat :: ItemFits(item, text, i, j) && Here(rest, text, j)
  {
    var items := [item] + rest;
    if Here(items, text, i) {
      var cuts :| Fits(items, text, cuts) && cuts[0] == i;
      assert ItemFits(items[0], text, cuts[0], cuts[1]);
      assert Fits(rest, text, cuts[1..]) by {
        forall n | 0 <= n < |rest|
          ensures ItemFits(rest[n], text, cuts[1..][n], cuts[1..][n + 1])
        {
          assert ItemFits(items[n + 1], text, cuts[n + 1], cuts[n + 2]);
        }
      }
      assert Here(rest, text, cuts[1]);
    }
    forall j: nat | ItemFits(item, text, i, j) && Here(rest, text, j)
      ensures Here(items, text, i)
    {
      var tail :| Fits(rest, text, tail) && tail[0] == j;
      var cuts := [i] + tail;
      assert Fits(items, text, cuts) by {
        forall n | 0 <= n < |items|
          ensures ItemFits(items[n], text, cuts[n], cuts[n + 1])
        {
          if 0 < n {
            assert ItemFits(rest[n - 1], text, tail[n - 1], tail[n]);
          }
        }
      }
    }
  }

  // The matcher

  method Match(re: string, text: string) returns (r: bool)
    ensures r <==> Accepts(re, text)
  {
    if re != [] && re[0] == '^' {
      r := MatchHere(re[1..], text, 0);
      return;
    }
    var i := 0;
    while true
      invariant i <= |text| && forall k :: 0 <= k < i ==> !Here(Items(re), text, k)
      decreases |text| - i
    {
      var here := MatchHere(re, text, i);
      if here {
        return true;
      }
      if i == |text| {
        return false;
      }
      i := i + 1;
    }
  }

  /** matchhere: search for re at the beginning of text[i..]. */
  method MatchHere(re: string, text: string, i: nat) returns (r: bool)
    requires i <= |text|
    ensures r <==> Here(Items(re), text, i)
    decreases |re|, 0
  {
    if re == [] {
      HereEmpty(text, i);
      return true;
    }
    if |re| >= 2 && re[1] == '*' {
      r := MatchStar(re[0], re[2..], text, i);
      return;
    }
    if re == "$" {
      HereFirst(End, [], text, i);
      HereEmpty(text, i);
      assert ItemFits(End, text, i, i) <==> i == |text|;
      assert [End] + [] == Items(re);
      return i == |text|;
    }
    HereFirst(One(re[0]), Items(re[1..]), text, i);
    assert ItemFits(One(re[0]), text, i, i + 1) <==> i < |text| && CharFits(re[0], text[i]);
    if i < |text| && (re[0] == '.' || re[0] == text[i]) {
      r := MatchHere(re[1..], text, i + 1);
      return;
    }
    return false;
  }

  /** matchstar: search for c*re at the beginning of text[i..]. */
  method MatchStar(c: char, re: string, text: string, i: nat) returns (r: bool)
    requires i <= |text|
    ensures r <==> Here([Star(c)] + Items(re), text, i)
    decreases |re|, 1
  {
    HereFirst(Star(c), Items(re), text, i);
    var j := i;
    while true
      invariant i <= j <= |text| && ItemFits(Star(c), text, i, j)
      invariant forall k :: i <= k < j ==> !Here(Items(re), text, k)
      decreases |text| - j
    {
      var here := MatchHere(re, text, j);
      if here {
        return true;
      }
      if j == |text| || !(text[j] == c || c == '.') {
        return false;
      }
      j := j + 1;
    }
  }
}
