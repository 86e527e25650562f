/** Character-sequence searches shared by the parser and the web server:
    `std::string::find` for a single character and for a substring. */
module Text {
  import opened Wrappers

  /** `s.find(c)`: the index of the first occurrence of `c`, or None for npos. */
  function Find(s: string, c: char): (r: Option<nat>)
    ensures r.None? <==> c !in s
    ensures r.Some? ==> r.value < |s| && s[r.value] == c && c !in s[..r.value]
  {
    if s == [] then None
    else if s[0] == c then Some(0)
    else match Find(s[1..], c)
      case None => None
      case Some(i) => assert s[..i + 1] == [s[0]] + s[1..][..i]; Some(i + 1)
  }

  /** The first occurrence is determined by the prefix that holds it:
      appending text after a found character does not move it. */
  lemma {:induction false} FindExtend(s: string, t: string, c: char)
    requires c in s
    ensures Find(s + t, c) == Find(s, c)
  {
    if s[0] != c {
      assert (s + t)[1..] == s[1..] + t;
      FindExtend(s[1..], t, c);
    }
  }

  /** A character absent from `t` is first found right after `t`. */
  lemma FindAfter(t: string, c: char, rest: string)
    requires c !in t
    ensures Find(t + [c] + rest, c) == Some(|t|)
  {
    var s := t + [c] + rest;
    assert s[|t|] == c;
    assert s[..|t|] == t;
  }

  predicate IsPrefix(p: string, s: string)
  {
    |p| <= |s| && s[..|p|] == p
  }

  /** `s.find(p) != std::string::npos`: `p` occurs somewhere in `s`. */
  predicate Contains(s: string, p: string)
    ensures p == [] ==> Contains(s, p)
    ensures Contains(s, p) ==> |p| <= |s|
    decreases |s|
  {
    IsPrefix(p, s) || (s != [] && Contains(s[1..], p))
  }

  /** `p` occurs in `s` starting at index `i`. */
  predicate OccursAt(s: string, p: string, i: int)
  {
    0 <= i <= |s| - |p| && s[i..i + |p|] == p
  }

  /** `Contains` agrees with the positional reading of substring search. */
  lemma {:induction false} ContainsAt(s: string, p: string)
    ensures Contains(s, p) <==> exists i :: OccursAt(s, p, i)
  {
    if Contains(s, p) {
      if IsPrefix(p, s) {
        assert OccursAt(s, p, 0);
      } else {
        ContainsAt(s[1..], p);
        var i :| OccursAt(s[1..], p, i);
        assert s[i + 1..i + 1 + |p|] == s[1..][i..i + |p|];
        assert OccursAt(s, p, i + 1);
      }
    } else if exists i :: OccursAt(s, p, i) {
      var i :| OccursAt(s, p, i);
      if i != 0 {
        assert s[1..][i - 1..i - 1 + |p|] == s[i..i + |p|];
        assert OccursAt(s[1..], p, i - 1);
        ContainsAt(s[1..], p);
      }
    }
  }

  /** A pattern cannot occur in a text that lacks one of its characters. */
  lemma MissingCharNotContained(s: string, p: string, k: nat)
    requires k < |p| && p[k] !in s
    ensures !Contains(s, p)
  {
    ContainsAt(s, p);
  }
}
