/** The two JavaScript string built-ins the node constructor relies on,
    `String.prototype.split` with a one-character separator and
    `Array.prototype.join`, with the per-character replacement they amount to. */
module JsText {

  /** `s.split(c)`: the maximal pieces of `s` between occurrences of `c`.
      As in JavaScript, the empty string splits into one empty piece. */
  function Split(s: string, c: char): (parts: seq<string>)
    ensures |parts| >= 1
    ensures forall k :: 0 <= k < |parts| ==> c !in parts[k]
  {
    if s == [] then [[]]
    else if s[0] == c then [[]] + Split(s[1..], c)
    else
      var rest := Split(s[1..], c);
      [[s[0]] + rest[0]] + rest[1..]
  }

  /** `parts.join(sep)`: the pieces in order with `sep` between neighbours;
      an empty array joins to the empty string. */
  function Join(parts: seq<string>, sep: string): string
  {
    if |parts| == 0 then []
    else if |parts| == 1 then parts[0]
    else parts[0] + sep + Join(parts[1..], sep)
  }

  /** Every occurrence of `c` in `s` replaced by `d`, one character at a time:
      the reference meaning of `s.split(c).join(d)`. */
  function Replace(s: string, c: char, d: char): (r: string)
    ensures |r| == |s|
  {
    if s == [] then [] else [if s[0] == c then d else s[0]] + Replace(s[1..], c, d)
  }

  lemma {:induction false} ReplaceAt(s: string, c: char, d: char, i: int)
    requires 0 <= i < |s|
    ensures Replace(s, c, d)[i] == if s[i] == c then d else s[i]
  {
    if i > 0 {
      ReplaceAt(s[1..], c, d, i - 1);
    }
  }

  /** Prepending a character to the first piece prepends it to the joined text. */
  lemma {:induction false} JoinPrependFirst(x: char, parts: seq<string>, sep: string)
    requires |parts| >= 1
    ensures Join([[x] + parts[0]] + parts[1..], sep) == [x] + Join(parts, sep)
  {
    var q := [[x] + parts[0]] + parts[1..];
    assert q[0] == [x] + parts[0];
    assert q[1..] == parts[1..];
  }

  /** Splitting at `c` and joining with `d` replaces every `c` by `d`. */
  lemma {:induction false} SplitJoinIsReplace(s: string, c: char, d: char)
    ensures Join(Split(s, c), [d]) == Replace(s, c, d)
  {
    if s != [] {
      var rest := Split(s[1..], c);
      SplitJoinIsReplace(s[1..], c, d);
      if s[0] == c {
        var parts := [[]] + rest;
        assert parts[0] == [] && parts[1..] == rest;
        assert Join(parts, [d]) == [] + [d] + Join(rest, [d]);
      } else {
        JoinPrependFirst(s[0], rest, [d]);
      }
    }
  }

  /** Joining the pieces with the separator they were split at gives the text back. */
  lemma {:induction false} JoinSplitRoundTrip(s: string, c: char)
    ensures Join(Split(s, c), [c]) == s
  {
    SplitJoinIsReplace(s, c, c);
    forall i | 0 <= i < |s|
      ensures Replace(s, c, c)[i] == s[i]
    {
      ReplaceAt(s, c, c, i);
    }
  }
}
