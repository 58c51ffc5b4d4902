/** String helpers with the semantics of the JavaScript and Python operations the chat
    protocol relies on. */
module Text {

  /** `s.split(sep)` for a one-character separator, as JavaScript defines it: the pieces
      between separators, in order, with an empty piece wherever two separators touch or
      a separator stands at either end; the empty string splits into one empty piece. */
  function Split(s: string, sep: char): (r: seq<string>)
    ensures |r| >= 1
    ensures forall i | 0 <= i < |r| :: sep !in r[i]
    decreases |s|
  {
    if |s| == 0 then [""]
    else if s[0] == sep then [""] + Split(s[1..], sep)
    else
      var t := Split(s[1..], sep);
      [[s[0]] + t[0]] + t[1..]
  }

  /** The inverse of Split: the pieces glued together with the separator between them. */
  function Join(parts: seq<string>, sep: char): string
  {
    if |parts| == 0 then ""
    else if |parts| == 1 then parts[0]
    else parts[0] + [sep] + Join(parts[1..], sep)
  }

  /** Splitting loses nothing: joining the pieces gives back the original string. */
  lemma {:induction false} JoinSplit(s: string, sep: char)
    ensures Join(Split(s, sep), sep) == s
    decreases |s|
  {
    if |s| > 0 {
      JoinSplit(s[1..], sep);
      var t := Split(s[1..], sep);
      if s[0] == sep {
        assert Split(s, sep) == [""] + t;
        assert Join([""] + t, sep) == "" + [sep] + Join(t, sep);
      } else {
        if |t| == 1 {
          assert Join(Split(s, sep), sep) == [s[0]] + t[0];
        } else {
          assert ([[s[0]] + t[0]] + t[1..])[1..] == t[1..];
          assert Join(t, sep) == t[0] + [sep] + Join(t[1..], sep);
        }
      }
      assert [s[0]] + s[1..] == s;
    }
  }

  /** A piece free of the separator, followed by the separator, is split off whole. */
  lemma {:induction false} SplitAfterPiece(p: string, sep: char, rest: string)
    requires sep !in p
    ensures Split(p + [sep] + rest, sep) == [p] + Split(rest, sep)
    decreases |p|
  {
    if |p| == 0 {
      assert p + [sep] + rest == [sep] + rest;
      assert ([sep] + rest)[1..] == rest;
    } else {
      SplitAfterPiece(p[1..], sep, rest);
      var s := p + [sep] + rest;
      assert s[0] == p[0] && s[1..] == p[1..] + [sep] + rest;
      assert [p[0]] + p[1..] == p;
    }
  }

  /** The in-order concatenation of a sequence of strings (`"".join(parts)`). */
  function Concat(parts: seq<string>): string
  {
    if |parts| == 0 then "" else Concat(parts[..|parts| - 1]) + parts[|parts| - 1]
  }

  /** Concatenation distributes over appending sequences of pieces. */
  lemma {:induction false} ConcatAppend(a: seq<string>, b: seq<string>)
    ensures Concat(a + b) == Concat(a) + Concat(b)
    decreases |b|
  {
    if |b| == 0 {
      assert a + b == a;
    } else {
      ConcatAppend(a, b[..|b| - 1]);
      assert (a + b)[..|a + b| - 1] == a + b[..|b| - 1];
    }
  }
}
