/** StringMatch.c: strstr with two states and jumps between them. */
module StringMatch {
  import opened Machine

  /** A string in memory, up to and including its NUL. */
  ghost predicate Terminated(s: seq<Byte>) {
    |s| > 0 && s[|s| - 1] == 0 && forall i :: 0 <= i < |s| - 1 ==> s[i] != 0
  }

  /** The first k characters of the needle stand at place i. */
  ghost predicate Begins(hay: seq<Byte>, needle: seq<Byte>, i: nat, k: nat) {
    k <= |needle| && i + k <= |hay| && forall j :: 0 <= j < k ==> hay[i + j] == needle[j]
  }

  /** The needle, without its NUL, stands at place i. */
  ghost predicate Occurs(hay: seq<Byte>, needle: seq<Byte>, i: nat) {
    |needle| > 0 && i + |needle| <= |hay| && Begins(hay, needle, i, |needle| - 1)
  }

  ghost predicate NoneBefore(hay: seq<Byte>, needle: seq<Byte>, n: int) {
    forall i :: 0 <= i < n ==> !Occurs(hay, needle, i)
  }

  /** Where execution continues: at the head of the search for the needle's first character, or,
      with haystack on that character, at the label jin. */
  datatype Place = Head | Jin

  /** The comparison of everything behind the second character, two characters a round. */
  method RestMatches(hay: seq<Byte>, needle: seq<Byte>, haystack: nat) returns (found: bool)
    requires Terminated(hay) && Terminated(needle) && |needle| > 2
    requires Begins(hay, needle, haystack, 2)
    ensures found <==> Occurs(hay, needle, haystack)
  {
    var rhaystack, rneedle := haystack + 2, 2;
    var a := needle[rneedle];
    assert hay[haystack + 1] == needle[1] != 0;
    if hay[rhaystack] == a {
      while true
        invariant 2 <= rneedle < |needle| && rhaystack == haystack + rneedle < |hay| && a == needle[rneedle]
        invariant Begins(hay, needle, haystack, rneedle + 1)
        decreases |needle| - rneedle
      {
        if a == 0 { return true; }
        rhaystack, rneedle := rhaystack + 1, rneedle + 1;
        a := needle[rneedle];
        if hay[rhaystack] != a { break; }
        if a == 0 { return true; }
        rhaystack, rneedle := rhaystack + 1, rneedle + 1;
        a := needle[rneedle];
        if hay[rhaystack] != a { break; }
      }
    }
    found := a == 0;
  }

  /** The search for b in steps of two, from behind haystack on; -1 stands for NIL. */
  method Skip(hay: seq<Byte>, needle: seq<Byte>, start: int) returns (haystack: int)
    requires Terminated(hay) && Terminated(needle) && |needle| > 1
    requires -1 <= start < |hay| - 1 && NoneBefore(hay, needle, start + 1)
    ensures haystack == -1 ==> NoneBefore(hay, needle, |hay|)
    ensures haystack != -1 ==> start < haystack < |hay| - 1 && hay[haystack] == needle[0] && NoneBefore(hay, needle, haystack)
  {
    haystack := start;
    while true
      invariant start <= haystack < |hay| - 1 && NoneBefore(hay, needle, haystack + 1)
      decreases |hay| - haystack
    {
      haystack := haystack + 1;
      if hay[haystack] == 0 { return -1; }
      if hay[haystack] == needle[0] { return; }
      haystack := haystack + 1;
      if hay[haystack] == 0 { return -1; }
      if hay[haystack] == needle[0] { return; }
    }
  }

  /** KLstringMatch: the first place where the needle occurs, or NIL (-1) if it occurs nowhere. */
  method Match(hay: seq<Byte>, needle: seq<Byte>) returns (r: int)
    requires Terminated(hay) && Terminated(needle)
    ensures r == -1 ==> NoneBefore(hay, needle, |hay|)
    ensures r != -1 ==> 0 <= r < |hay| && Occurs(hay, needle, r) && NoneBefore(hay, needle, r)
  {
    var b := needle[0];
    if b == 0 { return 0; }
    var haystack := 0;
    while hay[haystack] != b
      invariant haystack < |hay| && NoneBefore(hay, needle, haystack)
      decreases |hay| - haystack
    {
      if hay[haystack] == 0 { return -1; }
      haystack := haystack + 1;
    }
    var c := needle[1];
    if c == 0 { return haystack; }
    var place := Jin;
    while true
      invariant 0 <= haystack < |hay| - 1
      invariant place == Head ==> NoneBefore(hay, needle, haystack + 1)
      invariant place == Jin ==> hay[haystack] == b && NoneBefore(hay, needle, haystack)
      decreases |hay| - haystack, place == Jin
    {
      if place == Head {
        haystack := Skip(hay, needle, haystack);
        if haystack == -1 { return -1; }
      }
      haystack := haystack + 1;
      var a := hay[haystack];
      if a == 0 { return -1; }
      if a != c {
        place := if a == b then Jin else Head;
      } else {
        haystack := haystack - 1;
        var found := RestMatches(hay, needle, haystack);
        if found { return haystack; }
        place := Head;
      }
    }
  }
}
