/**
 * How a chat item lays out the text of a message: one line per piece of the
 * text between line feeds, each a keyed span followed by a line break.
 */
module MessageContent {
  import opened Primitives

  /** The number of times `c` occurs in `s`. */
  function Occurrences(s: string, c: char): nat {
    multiset(s)[c]
  }

  /** `s.split(sep)` for a one-character separator: the pieces between the separators, in order. */
  function Split(s: string, sep: char): (pieces: seq<string>)
    ensures |pieces| >= 1
    ensures forall k :: 0 <= k < |pieces| ==> sep !in pieces[k]
    decreases |s|
  {
    var i := IndexOf(s, sep);
    if i == -1 then
      [s]
    else
      assert sep !in s[..i];
      [s[..i]] + Split(s[i + 1..], sep)
  }

  /** Cutting a text at the first separator leaves one separator fewer in the rest. */
  lemma OccurrencesAfterFirst(s: string, sep: char, i: nat)
    requires i < |s| && s[i] == sep && sep !in s[..i]
    ensures Occurrences(s, sep) == Occurrences(s[i + 1..], sep) + 1
  {
    assert s == s[..i] + [sep] + s[i + 1..];
    assert multiset(s) == multiset(s[..i]) + multiset{sep} + multiset(s[i + 1..]);
  }

  /** A split yields one more piece than there are separators. */
  lemma {:induction false} SplitCount(s: string, sep: char)
    ensures |Split(s, sep)| == Occurrences(s, sep) + 1
    decreases |s|
  {
    var i := IndexOf(s, sep);
    if i != -1 {
      var rest := s[i + 1..];
      SplitCount(rest, sep);
      assert |Split(s, sep)| == |Split(rest, sep)| + 1;
      assert sep !in s[..i];
      OccurrencesAfterFirst(s, sep, i);
    }
  }

  /** `pieces.join(sep)`: the pieces with one separator between neighbours. */
  function Join(pieces: seq<string>, sep: char): string {
    if |pieces| == 0 then ""
    else if |pieces| == 1 then pieces[0]
    else pieces[0] + [sep] + Join(pieces[1..], sep)
  }

  /** Joining the pieces of a split gives back the text. */
  lemma {:induction false} JoinSplit(s: string, sep: char)
    ensures Join(Split(s, sep), sep) == s
    decreases |s|
  {
    var i := IndexOf(s, sep);
    if i != -1 {
      var rest := s[i + 1..];
      assert s[i] == sep;
      assert s == s[..i] + [sep] + rest;
      var tail := Split(rest, sep);
      var pieces := [s[..i]] + tail;
      assert Split(s, sep) == pieces;
      assert |pieces| > 1 && pieces[0] == s[..i] && pieces[1..] == tail;
      JoinSplit(rest, sep);
      calc {
        Join(pieces, sep);
        s[..i] + [sep] + Join(tail, sep);
        s[..i] + [sep] + rest;
        s;
      }
    }
  }

  /** A separator-free piece followed by the separator splits off as the first piece. */
  lemma SplitFirstPiece(p: string, sep: char, rest: string)
    requires sep !in p
    ensures Split(p + [sep] + rest, sep) == [p] + Split(rest, sep)
  {
    var s := p + [sep] + rest;
    assert forall k :: 0 <= k < |p| ==> s[k] == p[k];
    assert s[|p|] == sep;
    assert IndexOf(s, sep) == |p|;
    assert s[..|p|] == p;
    assert s[|p| + 1..] == rest;
  }

  /** Splitting the join of separator-free pieces (at least one) gives back the pieces. */
  lemma {:induction false} SplitJoin(pieces: seq<string>, sep: char)
    requires |pieces| >= 1
    requires forall k :: 0 <= k < |pieces| ==> sep !in pieces[k]
    ensures Split(Join(pieces, sep), sep) == pieces
    decreases |pieces|
  {
    var p := pieces[0];
    if |pieces| == 1 {
      assert IndexOf(p, sep) == -1;
    } else {
      var tail := pieces[1..];
      SplitJoin(tail, sep);
      SplitFirstPiece(p, sep, Join(tail, sep));
      assert pieces == [p] + tail;
    }
  }

  /** One rendered line: `<span key={index}>{text}<br /></span>`. */
  datatype Line = Line(key: nat, text: string)

  /** The texts of the lines, in order. */
  function Texts(lines: seq<Line>): seq<string> {
    seq(|lines|, k requires 0 <= k < |lines| => lines[k].text)
  }

  /**
   * `formatMessageContent`: one line per line feed plus one, keyed by its
   * position, none containing a line feed, and together spelling the message.
   */
  function FormatMessageContent(content: string): (lines: seq<Line>)
    ensures |lines| == Occurrences(content, '\n') + 1
    ensures forall k :: 0 <= k < |lines| ==> lines[k].key == k && '\n' !in lines[k].text
    ensures Join(Texts(lines), '\n') == content
  {
    var pieces := Split(content, '\n');
    var lines := seq(|pieces|, k requires 0 <= k < |pieces| => Line(k, pieces[k]));
    assert Texts(lines) == pieces;
    SplitCount(content, '\n');
    JoinSplit(content, '\n');
    lines
  }
}
