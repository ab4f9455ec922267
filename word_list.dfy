/**
 Turning the contents of the start-word file into the pool of base words:
 `components(separatedBy: "\n")` and the one-word fallback used when no file
 could be read.
 */
module WordList {
  import opened Wrappers

  /** The base word used when the start-word file yields nothing. */
  const FallbackWord: string := "silkworm"

  /** The line separator of the start-word file. */
  const Newline: char := '\n'

  /**
   `s.components(separatedBy: sep)`: the pieces of `s` between occurrences of
   `sep`. There is always at least one piece (an empty `s` gives `[""]`), and
   no piece holds the separator.
   */
  function Split(s: string, sep: char): (parts: seq<string>)
    ensures |parts| >= 1
    ensures forall i :: 0 <= i < |parts| ==> sep !in parts[i]
  {
    if s == [] then [[]]
    else
      var rest := Split(s[1..], sep);
      if s[0] == sep then [[]] + rest
      else [[s[0]] + rest[0]] + rest[1..]
  }

  /** The pieces put back together with `sep` between neighbours. */
  function Join(parts: seq<string>, sep: char): string
    requires |parts| >= 1
  {
    if |parts| == 1 then parts[0] else parts[0] + [sep] + Join(parts[1..], sep)
  }

  /** Splitting loses nothing: joining the pieces again gives back the text. */
  lemma {:induction false} JoinSplit(s: string, sep: char)
    ensures Join(Split(s, sep), sep) == s
  {
    if s != [] {
      var rest := Split(s[1..], sep);
      JoinSplit(s[1..], sep);
      if s[0] == sep {
        assert Split(s, sep) == [[]] + rest;
        assert Split(s, sep)[1..] == rest;
      } else {
        var parts := Split(s, sep);
        assert parts == [[s[0]] + rest[0]] + rest[1..];
        if |rest| > 1 {
          assert parts[1..] == rest[1..];
          assert Join(rest, sep) == rest[0] + [sep] + Join(rest[1..], sep);
        }
      }
    }
  }

  /** Splitting is exact: pieces free of the separator are recovered from their join. */
  lemma {:induction false} SplitJoin(parts: seq<string>, sep: char)
    requires |parts| >= 1
    requires forall i :: 0 <= i < |parts| ==> sep !in parts[i]
    ensures Split(Join(parts, sep), sep) == parts
  {
    if |parts| == 1 {
      SplitPiece(parts[0], [], sep);
      assert parts[0] + [] == parts[0];
      assert Split([], sep) == [[]];
    } else {
      SplitJoin(parts[1..], sep);
      var tail := Join(parts[1..], sep);
      SplitPiece(parts[0], [sep] + tail, sep);
      calc {
        Split(parts[0] + [sep] + tail, sep);
        { assert parts[0] + [sep] + tail == parts[0] + ([sep] + tail); }
        Split(parts[0] + ([sep] + tail), sep);
        [parts[0] + Split([sep] + tail, sep)[0]] + Split([sep] + tail, sep)[1..];
        { assert ([sep] + tail)[1..] == tail;
          assert Split([sep] + tail, sep) == [[]] + Split(tail, sep);
          assert parts[0] + [] == parts[0]; }
        [parts[0]] + parts[1..];
        parts;
      }
    }
  }

  /** A leading run without the separator joins the first piece. */
  lemma {:induction false} SplitPiece(piece: string, rest: string, sep: char)
    requires sep !in piece
    ensures Split(piece + rest, sep) ==
      [piece + Split(rest, sep)[0]] + Split(rest, sep)[1..]
  {
    if piece != [] {
      SplitPiece(piece[1..], rest, sep);
      assert (piece + rest)[1..] == piece[1..] + rest;
      assert (piece + rest)[0] == piece[0];
      assert [piece[0]] + (piece[1..] + Split(rest, sep)[0]) == piece + Split(rest, sep)[0];
    } else {
      var parts := Split(rest, sep);
      assert piece + rest == rest;
      assert piece + parts[0] == parts[0];
      assert parts == [parts[0]] + parts[1..];
    }
  }

  /**
   The pool after loading (`viewDidLoad`): the lines of the file when it could be
   read, otherwise the pool as it was; an empty pool is replaced by the
   fallback word.
   */
  function StartWords(file: Option<string>, current: seq<string>): (pool: seq<string>)
    ensures pool != []
    ensures file.Some? ==> pool == Split(file.value, Newline)
    ensures file.None? && current != [] ==> pool == current
    ensures file.None? && current == [] ==> pool == [FallbackWord]
  {
    var loaded := if file.Some? then Split(file.value, Newline) else current;
    if loaded == [] then [FallbackWord] else loaded
  }

  /** An empty file gives one empty line, so only a missing file brings in the fallback word. */
  lemma LoadingExamples()
    ensures Split("", Newline) == [""]
    ensures StartWords(Some(""), []) == [""]
    ensures StartWords(None, []) == ["silkworm"]
  {
  }
}
