/**
 * The string operations the forwarder relies on: Python's `sep.join(parts)`,
 * `str.split(',')`, the whitespace `bytes.split()` applied to an IMAP SEARCH
 * response, and the truthiness of an optional string.
 */
module Text {
  import opened Wrappers

  /** Python truthiness of an optional `str`: `None` and `""` are both false. */
  predicate Truthy(o: Option<string>)
  {
    o.Some? && o.value != ""
  }

  function TotalLength(parts: seq<string>): nat
  {
    if parts == [] then 0 else |parts[0]| + TotalLength(parts[1..])
  }

  /** `sep.join(parts)`: the parts in order, one separator between each two. */
  function Join(parts: seq<string>, sep: string): (r: string)
    ensures |parts| == 0 ==> r == ""
    ensures |parts| >= 1 ==> parts[0] <= r && |r| == TotalLength(parts) + (|parts| - 1) * |sep|
  {
    if |parts| == 0 then ""
    else if |parts| == 1 then parts[0]
    else parts[0] + sep + Join(parts[1..], sep)
  }

  /** `s.split(c)` for a one-character separator: every occurrence of `c` cuts, empty pieces are kept. */
  function SplitAt(s: string, c: char): (pieces: seq<string>)
    ensures |pieces| >= 1
    ensures forall i :: 0 <= i < |pieces| ==> c !in pieces[i]
  {
    if s == [] then [""]
    else
      var rest := SplitAt(s[1..], c);
      if s[0] == c then [""] + rest
      else [[s[0]] + rest[0]] + rest[1..]
  }

  /** `s` with every occurrence of `c` replaced by `sep`. */
  function Replace(s: string, c: char, sep: string): string
  {
    if s == [] then ""
    else (if s[0] == c then sep else [s[0]]) + Replace(s[1..], c, sep)
  }

  /** The whitespace characters of Python's `bytes.split()` with no argument. */
  predicate IsSpace(c: char)
  {
    c == ' ' || c == '\t' || c == '\n' || c == '\r' || c == '\U{0B}' || c == '\U{0C}'
  }

  predicate NoSpace(w: string)
  {
    forall i :: 0 <= i < |w| ==> !IsSpace(w[i])
  }

  /** The longest prefix of `s` without whitespace. */
  function Token(s: string): (w: string)
    ensures w <= s && NoSpace(w)
    ensures |w| < |s| ==> IsSpace(s[|w|])
  {
    if s == [] || IsSpace(s[0]) then [] else [s[0]] + Token(s[1..])
  }

  /** `s.split()`: the maximal runs of non-whitespace characters, in order. */
  function Words(s: string): (ws: seq<string>)
    ensures forall i :: 0 <= i < |ws| ==> ws[i] != [] && NoSpace(ws[i])
    decreases |s|
  {
    if s == [] then []
    else if IsSpace(s[0]) then Words(s[1..])
    else
      var w := Token(s);
      [w] + Words(s[|w|..])
  }

  lemma {:induction false} TokenOfWord(w: string, rest: string)
    requires NoSpace(w)
    requires rest == [] || IsSpace(rest[0])
    ensures Token(w + rest) == w
  {
    if w != [] {
      assert (w + rest)[1..] == w[1..] + rest;
      TokenOfWord(w[1..], rest);
    } else {
      assert w + rest == rest;
    }
  }

  /** `Words` of a string that starts with a word followed by nothing or by whitespace. */
  lemma WordsCons(w: string, rest: string)
    requires w != [] && NoSpace(w)
    requires rest == [] || IsSpace(rest[0])
    ensures Words(w + rest) == [w] + Words(rest)
  {
    var s := w + rest;
    assert s[0] == w[0];
    TokenOfWord(w, rest);
    assert s[|w|..] == rest;
  }

  /** Whitespace separates words: splitting around one whitespace character splits each side on its own. */
  lemma {:induction false} WordsSep(a: string, b: string, c: char)
    requires IsSpace(c)
    ensures Words(a + [c] + b) == Words(a) + Words(b)
    decreases |a|
  {
    var s := a + [c] + b;
    if a == [] {
      assert s == [c] + b && s[1..] == b;
    } else if IsSpace(a[0]) {
      assert s[1..] == a[1..] + [c] + b;
      WordsSep(a[1..], b, c);
    } else {
      var w := Token(a);
      var rest := a[|w|..];
      assert a == w + rest;
      assert s == w + (rest + [c] + b);
      TokenOfWord(w, rest + [c] + b);
      assert s[|w|..] == rest + [c] + b;
      WordsSep(rest, b, c);
      assert Words(a) == [w] + Words(rest);
    }
  }

  /** Joining whitespace-free, non-empty words with single spaces and splitting them again gives the words back. */
  lemma {:induction false} WordsOfJoin(ws: seq<string>)
    requires forall i :: 0 <= i < |ws| ==> ws[i] != [] && NoSpace(ws[i])
    ensures Words(Join(ws, " ")) == ws
  {
    if |ws| == 1 {
      WordsCons(ws[0], []);
      assert ws[0] + [] == ws[0];
    } else if |ws| >= 2 {
      var tail := Join(ws[1..], " ");
      assert Join(ws, " ") == ws[0] + (" " + tail);
      WordsCons(ws[0], " " + tail);
      assert (" " + tail)[1..] == tail;
      WordsOfJoin(ws[1..]);
      assert ws == [ws[0]] + ws[1..];
    }
  }

  /** Splitting at a character that `a` does not contain leaves `a` at the head of the first piece. */
  lemma {:induction false} SplitAtPrefix(a: string, b: string, c: char)
    requires c !in a
    ensures SplitAt(a + b, c) == [a + SplitAt(b, c)[0]] + SplitAt(b, c)[1..]
  {
    if a != [] {
      assert (a + b)[1..] == a[1..] + b;
      SplitAtPrefix(a[1..], b, c);
      assert [a[0]] + (a[1..] + SplitAt(b, c)[0]) == a + SplitAt(b, c)[0];
    } else {
      var pieces := SplitAt(b, c);
      assert a + b == b && a + pieces[0] == pieces[0];
      assert pieces == [pieces[0]] + pieces[1..];
    }
  }

  /** Joining pieces that do not contain `c` with `c` and splitting at `c` gives the pieces back. */
  lemma {:induction false} SplitJoin(pieces: seq<string>, c: char)
    requires |pieces| >= 1
    requires forall i :: 0 <= i < |pieces| ==> c !in pieces[i]
    ensures SplitAt(Join(pieces, [c]), c) == pieces
  {
    if |pieces| == 1 {
      SplitAtPrefix(pieces[0], [], c);
      assert pieces[0] + [] == pieces[0];
    } else {
      var tail := Join(pieces[1..], [c]);
      assert Join(pieces, [c]) == pieces[0] + ([c] + tail);
      SplitAtPrefix(pieces[0], [c] + tail, c);
      assert ([c] + tail)[1..] == tail;
      assert SplitAt([c] + tail, c) == [""] + SplitAt(tail, c);
      SplitJoin(pieces[1..], c);
      assert pieces[0] + "" == pieces[0];
      assert pieces == [pieces[0]] + pieces[1..];
    }
  }

  /** Joining the pieces of `s.split(c)` with `sep` is the same as replacing each `c` with `sep`. */
  lemma {:induction false} JoinSplit(s: string, c: char, sep: string)
    ensures Join(SplitAt(s, c), sep) == Replace(s, c, sep)
  {
    if s != [] {
      var rest := SplitAt(s[1..], c);
      JoinSplit(s[1..], c, sep);
      if s[0] == c {
        assert SplitAt(s, c) == [""] + rest;
        assert ([""] + rest)[1..] == rest;
      } else {
        var pieces := SplitAt(s, c);
        assert pieces == [[s[0]] + rest[0]] + rest[1..];
        if |rest| == 1 {
          assert Join(pieces, sep) == [s[0]] + rest[0];
          assert Join(rest, sep) == rest[0];
        } else {
          assert pieces[1..] == rest[1..];
          assert Join(pieces, sep) == [s[0]] + (rest[0] + sep + Join(rest[1..], sep));
        }
      }
    }
  }

  // ---------------------------------------------------------------------
  // Lines, as `str.splitlines` finds them

  /** The characters `str.splitlines` ends a line at. */
  predicate IsLineBreak(c: char)
  {
    c == '\n' || c == '\r' || c == '\U{0B}' || c == '\U{0C}' || c == '\U{1C}' || c == '\U{1D}' || c == '\U{1E}'
    || c == '\U{85}' || c == '\U{2028}' || c == '\U{2029}'
  }

  predicate NoBreak(s: string)
  {
    forall i :: 0 <= i < |s| ==> !IsLineBreak(s[i])
  }

  /** Printable ASCII holds no line break. */
  lemma PrintableNoBreak(s: string)
    requires forall i :: 0 <= i < |s| ==> 32 <= s[i] as int < 127
    ensures NoBreak(s)
  {
  }

  /** Where the first line of `s` ends: the first line break, or the end of `s`. */
  function LineEnd(s: string): (k: nat)
    ensures k <= |s| && NoBreak(s[..k])
    ensures k < |s| ==> IsLineBreak(s[k])
  {
    if s == [] || IsLineBreak(s[0]) then 0
    else
      var k := 1 + LineEnd(s[1..]);
      assert forall i :: 1 <= i < k ==> s[..k][i] == s[1..][..k - 1][i - 1];
      k
  }

  /** `len(s.splitlines())`: a line break ends a line, and `\r\n` counts as one break. */
  function LineCount(s: string): (n: nat)
    ensures n == 0 <==> s == []
    decreases |s|
  {
    if s == [] then 0
    else
      var k := LineEnd(s);
      if k == |s| then 1
      else
        var next := if s[k] == '\r' && k + 1 < |s| && s[k + 1] == '\n' then k + 2 else k + 1;
        1 + LineCount(s[next..])
  }

  /** A line break, other than the `\r` of `\r\n`, ends the first line; what follows is counted on its own. */
  lemma LineCountBreak(a: string, c: char, b: string)
    requires NoBreak(a) && IsLineBreak(c)
    requires c == '\r' ==> b == [] || b[0] != '\n'
    ensures LineCount(a + [c] + b) == 1 + LineCount(b)
  {
    var s := a + [c] + b;
    LineEndOf(a, [c] + b);
    assert s == a + ([c] + b);
    assert s[|a| + 1..] == b;
  }

  /** `\r\n` ends the first line as one break. */
  lemma LineCountCrlf(a: string, b: string)
    requires NoBreak(a)
    ensures LineCount(a + "\r\n" + b) == 1 + LineCount(b)
  {
    var s := a + "\r\n" + b;
    LineEndOf(a, "\r\n" + b);
    assert s == a + ("\r\n" + b);
    assert s[|a| + 2..] == b;
  }

  /** A line with at most one line ending after it is one line. */
  lemma {:induction false} OneLine(a: string, end: string)
    requires a != [] && NoBreak(a)
    requires end == [] || (|end| == 1 && IsLineBreak(end[0])) || end == "\r\n"
    ensures LineCount(a + end) == 1
  {
    if end == [] {
      assert a + end == a;
      LineEndOf(a, []);
      assert a + [] == a;
    } else if end == "\r\n" {
      LineCountCrlf(a, []);
      assert a + "\r\n" + [] == a + end;
    } else {
      LineCountBreak(a, end[0], []);
      assert a + [end[0]] + [] == a + end;
    }
  }

  lemma {:induction false} LineEndOf(a: string, b: string)
    requires NoBreak(a)
    requires b == [] || IsLineBreak(b[0])
    ensures LineEnd(a + b) == |a|
    decreases |a|
  {
    if a == [] {
      assert a + b == b;
    } else {
      assert (a + b)[1..] == a[1..] + b;
      LineEndOf(a[1..], b);
    }
  }
}
