/**
  `String.prototype.split` with a one-character separator, and its inverse
  `Array.prototype.join`. JavaScript splits on UTF-16 code units; for the
  separator '\n' this is the same as splitting on characters, since no
  surrogate half equals it.
 */
module Strings {

  /** Number of occurrences of `c` in `s`. */
  function Count(s: string, c: char): nat {
    if s == [] then 0
    else (if s[0] == c then 1 else 0) + Count(s[1..], c)
  }

  /**
    `s.split(sep)`: the maximal pieces of `s` between separators, empty
    pieces included. Splitting the empty string gives one empty piece.
   */
  function Split(s: string, sep: char): (r: seq<string>)
    ensures |r| == Count(s, sep) + 1
    ensures forall i :: 0 <= i < |r| ==> sep !in r[i]
  {
    if s == [] then [[]]
    else
      var rest := Split(s[1..], sep);
      if s[0] == sep then [[]] + rest
      else
        assert forall i :: 1 <= i < |rest| ==> rest[1..][i - 1] == rest[i];
        [[s[0]] + rest[0]] + rest[1..]
  }

  /** `parts.join(sep)`: the pieces with one separator between neighbours. */
  function Join(parts: seq<string>, sep: char): string {
    if parts == [] then []
    else if |parts| == 1 then parts[0]
    else parts[0] + [sep] + Join(parts[1..], sep)
  }

  /** Putting a character in front of the first piece puts it in front of the joined string. */
  lemma JoinConsFirst(c: char, parts: seq<string>, sep: char)
    requires parts != []
    ensures Join([[c] + parts[0]] + parts[1..], sep) == [c] + Join(parts, sep)
  {
  }

  /** Joining the pieces of a split with the same separator gives back the string. */
  lemma {:induction false} JoinSplit(s: string, sep: char)
    ensures Join(Split(s, sep), sep) == s
  {
    if s != [] {
      var rest := Split(s[1..], sep);
      JoinSplit(s[1..], sep);
      if s[0] == sep {
        assert ([[]] + rest)[1..] == rest;
        assert s == [sep] + s[1..];
      } else {
        JoinConsFirst(s[0], rest, sep);
        assert s == [s[0]] + s[1..];
      }
    }
  }

  /** Prefixing a separator-free string only extends the first piece. */
  lemma {:induction false} SplitPrefix(a: string, b: string, sep: char)
    requires sep !in a
    ensures Split(a + b, sep) == [a + Split(b, sep)[0]] + Split(b, sep)[1..]
  {
    var pieces := Split(b, sep);
    if a == [] {
      assert a + b == b;
      assert a + pieces[0] == pieces[0];
      assert pieces == [pieces[0]] + pieces[1..];
    } else {
      assert (a + b)[0] == a[0] && (a + b)[1..] == a[1..] + b;
      SplitPrefix(a[1..], b, sep);
      assert [a[0]] + (a[1..] + Split(b, sep)[0]) == a + Split(b, sep)[0];
    }
  }

  /**
    Splitting a join of separator-free pieces gives back the pieces: the
    other half of the round trip. There must be at least one piece, because
    joining no pieces and joining one empty piece both give "".
   */
  lemma {:induction false} SplitJoin(parts: seq<string>, sep: char)
    requires parts != []
    requires forall i :: 0 <= i < |parts| ==> sep !in parts[i]
    ensures Split(Join(parts, sep), sep) == parts
  {
    if |parts| == 1 {
      SplitPrefix(parts[0], [], sep);
      assert parts[0] + [] == parts[0];
      assert parts == [parts[0]];
    } else {
      SplitJoin(parts[1..], sep);
      var tail := Join(parts[1..], sep);
      assert Join(parts, sep) == parts[0] + ([sep] + tail);
      SplitPrefix(parts[0], [sep] + tail, sep);
      assert ([sep] + tail)[1..] == tail;
      assert Split([sep] + tail, sep) == [[]] + parts[1..];
      assert parts[0] + [] == parts[0];
    }
  }
}
