/** `NMEAParser::split` (identical in the root and `src/` versions): tokens
    are read with `std::getline(stream, token, delimiter)` until it fails.

    Each call extracts characters up to and including the next delimiter and
    succeeds if it extracted anything at all, so interior empty fields are
    kept, while a delimiter at the very end leaves nothing to extract and the
    empty field after it is dropped; the empty text gives no token. */
module Tokenizer {
  import opened Wrappers
  import opened Text

  function Split(s: string, d: char): (tokens: seq<string>)
    ensures forall i :: 0 <= i < |tokens| ==> d !in tokens[i]
    ensures tokens == [] <==> s == []
    decreases |s|
  {
    if s == [] then []
    else match Find(s, d)
      case None => [s]
      case Some(i) => [s[..i]] + Split(s[i + 1..], d)
  }

  /** Tokens glued back together with the delimiter between them: the text
      starts with the first token and has a delimiter between each pair. */
  function Join(tokens: seq<string>, d: char): (j: string)
  {
    if tokens == [] then []
    else if |tokens| == 1 then tokens[0]
    else tokens[0] + [d] + Join(tokens[1..], d)
  }

  predicate EndsWith(s: string, d: char)
  {
    s != [] && s[|s| - 1] == d
  }

  /** Joining the tokens gives back the text, except for the one delimiter
      whose empty field was dropped at the end. */
  lemma {:induction false} JoinSplit(s: string, d: char)
    ensures !EndsWith(s, d) ==> Join(Split(s, d), d) == s
    ensures EndsWith(s, d) ==> Join(Split(s, d), d) + [d] == s
    decreases |s|
  {
    if s != [] {
      if d !in s {
        SplitWithoutDelimiter(s, d);
      } else {
        var i := Find(s, d).value;
        var head, rest := s[..i], s[i + 1..];
        SplitAtFirst(s, d, i);
        if rest == [] {
          SplitBeforeFinalDelimiter(head, d);
        } else {
          JoinSplit(rest, d);
          JoinPrepend(head, rest, Split(rest, d), d);
        }
      }
    }
  }

  /** A text whose only delimiter is its last character is one token. */
  lemma SplitBeforeFinalDelimiter(head: string, d: char)
    requires d !in head
    ensures Join(Split(head + [d], d), d) + [d] == head + [d] && EndsWith(head + [d], d)
  {
    SplitAfterToken(head, [], d);
    assert head + [d] + [] == head + [d];
    assert Split(head + [d], d) == [head];
  }

  /** The inductive step of `JoinSplit`, with the tokens of the text after the
      first delimiter given. */
  lemma JoinPrepend(head: string, rest: string, tail: seq<string>, d: char)
    requires rest != [] && tail != []
    requires !EndsWith(rest, d) ==> Join(tail, d) == rest
    requires EndsWith(rest, d) ==> Join(tail, d) + [d] == rest
    ensures !EndsWith(head + [d] + rest, d) ==> Join([head] + tail, d) == head + [d] + rest
    ensures EndsWith(head + [d] + rest, d) ==> Join([head] + tail, d) + [d] == head + [d] + rest
  {
    JoinCons(head, tail, d);
    EndsWithSuffix(head + [d], rest, d);
    var j := Join(tail, d);
    if EndsWith(rest, d) {
      assert head + [d] + j + [d] == head + [d] + (j + [d]);
    }
  }

  /** A non-empty text without the delimiter is one token and does not end in it. */
  lemma SplitWithoutDelimiter(s: string, d: char)
    requires s != [] && d !in s
    ensures Split(s, d) == [s] && Join([s], d) == s && !EndsWith(s, d)
  {
    assert s[|s| - 1] in s;
  }

  /** Splitting at the first delimiter. */
  lemma SplitAtFirst(s: string, d: char, i: nat)
    requires Find(s, d) == Some(i)
    ensures Split(s, d) == [s[..i]] + Split(s[i + 1..], d)
    ensures s == s[..i] + [d] + s[i + 1..]
  {
  }

  /** Whether a text ends with the delimiter depends only on a non-empty suffix. */
  lemma EndsWithSuffix(x: string, rest: string, d: char)
    requires rest != []
    ensures EndsWith(x + rest, d) == EndsWith(rest, d)
  {
    assert (x + rest)[|x + rest| - 1] == rest[|rest| - 1];
  }

  /** Joining a list with at least two tokens puts the delimiter after the first. */
  lemma JoinCons(head: string, tail: seq<string>, d: char)
    requires tail != []
    ensures Join([head] + tail, d) == head + [d] + Join(tail, d)
  {
    assert ([head] + tail)[0] == head && ([head] + tail)[1..] == tail;
  }

  /** Splitting recovers any token list free of the delimiter whose last token
      is not empty: interior empty fields survive the round trip. */
  lemma {:induction false} SplitJoin(tokens: seq<string>, d: char)
    requires forall i :: 0 <= i < |tokens| ==> d !in tokens[i]
    requires tokens == [] || tokens[|tokens| - 1] != []
    ensures Split(Join(tokens, d), d) == tokens
    decreases |tokens|
  {
    if |tokens| == 1 {
      assert Find(tokens[0], d) == None;
    } else if |tokens| > 1 {
      var t, rest := tokens[0], tokens[1..];
      assert tokens == [t] + rest;
      JoinCons(t, rest, d);
      SplitAfterToken(t, Join(rest, d), d);
      SplitJoin(rest, d);
    }
  }

  /** A token free of the delimiter, then the delimiter, splits off as the
      first token. */
  lemma SplitAfterToken(t: string, rest: string, d: char)
    requires d !in t
    ensures Split(t + [d] + rest, d) == [t] + Split(rest, d)
  {
    var s := t + [d] + rest;
    FindAfter(t, d, rest);
    SplitAtFirst(s, d, |t|);
    assert s[..|t|] == t;
    assert s[|t| + 1..] == rest;
  }

  /** The example of a time, a latitude, an omitted field and a longitude. */
  lemma InteriorEmptyFieldKept()
    ensures Split("Time,Lat,,Lon", ',') == ["Time", "Lat", "", "Lon"]
  {
    var tokens := ["Time", "Lat", "", "Lon"];
    assert Join(tokens, ',') == "Time,Lat,,Lon";
    assert forall i :: 0 <= i < |tokens| ==> ',' !in tokens[i];
    SplitJoin(tokens, ',');
  }

  /** A trailing delimiter adds no token: "a," splits like "a". */
  lemma {:induction false} TrailingEmptyFieldDropped(s: string, d: char)
    requires s != [] && !EndsWith(s, d)
    ensures Split(s + [d], d) == Split(s, d)
    decreases |s|
  {
    if d in s {
      FindExtend(s, [d], d);
      var i := Find(s, d).value;
      assert (s + [d])[..i] == s[..i];
      assert (s + [d])[i + 1..] == s[i + 1..] + [d];
      TrailingEmptyFieldDropped(s[i + 1..], d);
    } else {
      FindAfter(s, d, []);
      assert (s + [d])[..|s|] == s;
      assert (s + [d])[|s| + 1..] == [];
    }
  }
}
