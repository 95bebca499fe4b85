/**
 * The two text layers the codec sits on: lines as BufferedWriter writes them
 * (each followed by the Unix line separator "\n") and as BufferedReader.readLine
 * reads them back (a line ends at "\n", "\r" or "\r\n"), and Java's
 * String.split(" ") on one line.
 */
module TextLines {

  predicate IsLineBreak(c: char) {
    c == '\n' || c == '\r'
  }

  predicate IsSpace(c: char) {
    c == ' '
  }

  predicate NoLineBreak(s: string) {
    forall i :: 0 <= i < |s| ==> !IsLineBreak(s[i])
  }

  predicate NoSpace(s: string) {
    forall i :: 0 <= i < |s| ==> !IsSpace(s[i])
  }

  /** The index of the first character of `s` that `stop` holds of, or |s| when there is none. */
  function IndexWhere(s: string, stop: char -> bool): (k: nat)
    ensures k <= |s|
    ensures forall i :: 0 <= i < k ==> !stop(s[i])
    ensures k < |s| ==> stop(s[k])
    decreases |s|
  {
    if |s| == 0 then 0
    else if stop(s[0]) then 0
    else 1 + IndexWhere(s[1..], stop)
  }

  /** The first index is determined by the two properties that define it. */
  lemma IndexWhereUnique(s: string, stop: char -> bool, k: nat)
    requires k <= |s|
    requires forall i :: 0 <= i < k ==> !stop(s[i])
    requires k < |s| ==> stop(s[k])
    ensures IndexWhere(s, stop) == k
  {
  }

  /** Where the line starting `text` ends, and where the next one starts. */
  function NextLineStart(text: string): (next: nat)
    requires |text| > 0
    ensures IndexWhere(text, IsLineBreak) < next <= |text| || next == |text|
  {
    var k := IndexWhere(text, IsLineBreak);
    if k == |text| then |text|
    else if text[k] == '\r' && k + 1 < |text| && text[k + 1] == '\n' then k + 2
    else k + 1
  }

  /** The lines BufferedReader.readLine returns, one after the other, until it returns null. */
  function ReadLines(text: string): (lines: seq<string>)
    ensures forall i :: 0 <= i < |lines| ==> NoLineBreak(lines[i])
    decreases |text|
  {
    if |text| == 0 then []
    else
      var k := IndexWhere(text, IsLineBreak);
      [text[..k]] + ReadLines(text[NextLineStart(text)..])
  }

  /** What the writer produces for `lines`: each one followed by "\n". */
  function JoinLines(lines: seq<string>): (text: string)
    decreases |lines|
  {
    if |lines| == 0 then "" else lines[0] + "\n" + JoinLines(lines[1..])
  }

  lemma {:induction false} JoinAppend(lines: seq<string>, line: string)
    ensures JoinLines(lines + [line]) == JoinLines(lines) + line + "\n"
    decreases |lines|
  {
    if |lines| > 0 {
      assert (lines + [line])[1..] == lines[1..] + [line];
      JoinAppend(lines[1..], line);
    }
  }

  lemma {:induction false} JoinConcat(a: seq<string>, b: seq<string>)
    ensures JoinLines(a + b) == JoinLines(a) + JoinLines(b)
    decreases |a|
  {
    if |a| > 0 {
      assert (a + b)[0] == a[0];
      assert (a + b)[1..] == a[1..] + b;
      JoinConcat(a[1..], b);
      calc {
        JoinLines(a + b);
        a[0] + "\n" + JoinLines(a[1..] + b);
        a[0] + "\n" + (JoinLines(a[1..]) + JoinLines(b));
        (a[0] + "\n" + JoinLines(a[1..])) + JoinLines(b);
      }
    } else {
      assert a + b == b;
    }
  }

  /** The first line read back is the first line written when it holds no line break. */
  lemma FirstLineRead(line: string, rest: string)
    requires NoLineBreak(line)
    ensures ReadLines(line + "\n" + rest) == [line] + ReadLines(rest)
  {
    var text := line + "\n" + rest;
    IndexWhereUnique(text, IsLineBreak, |line|);
    assert text[..|line|] == line;
    assert text[|line| + 1..] == rest;
  }

  /** Reading back what the writer wrote gives the same lines, when none holds a line break. */
  lemma {:induction false} ReadJoin(lines: seq<string>)
    requires forall i :: 0 <= i < |lines| ==> NoLineBreak(lines[i])
    ensures ReadLines(JoinLines(lines)) == lines
    decreases |lines|
  {
    if |lines| > 0 {
      ReadJoin(lines[1..]);
      FirstLineRead(lines[0], JoinLines(lines[1..]));
    }
  }

  /**
   * A first line that does hold a line break is read back cut at the break:
   * readLine ends the line there.
   */
  lemma FirstLineCut(line: string, rest: string)
    requires !NoLineBreak(line)
    ensures var k := IndexWhere(line, IsLineBreak);
            k < |line| && ReadLines(line + "\n" + rest)[0] == line[..k] != line
  {
    var k := IndexWhere(line, IsLineBreak);
    var text := line + "\n" + rest;
    IndexWhereUnique(text, IsLineBreak, k);
    assert text[..k] == line[..k];
  }

  /** The pieces of `s` between the characters `sep` holds of, empty pieces included. */
  function Fields(s: string, sep: char -> bool): (r: seq<string>)
    ensures |r| >= 1
    ensures r[0] == s[..IndexWhere(s, sep)]
    decreases |s|
  {
    var k := IndexWhere(s, sep);
    if k == |s| then [s] else [s[..k]] + Fields(s[k + 1..], sep)
  }

  function DropTrailingEmpty(fs: seq<string>): (r: seq<string>)
    ensures |r| <= |fs| && r == fs[..|r|]
    ensures |r| > 0 ==> r[|r| - 1] != ""
    ensures forall i :: |r| <= i < |fs| ==> fs[i] == ""
    decreases |fs|
  {
    if |fs| > 0 && fs[|fs| - 1] == "" then DropTrailingEmpty(fs[..|fs| - 1]) else fs
  }

  /**
   * String.split with a pattern matching single characters that `sep` holds
   * of: when nothing matches, the whole string is the only piece (even when
   * it is empty); otherwise the pieces between matches with the trailing
   * empty ones removed.
   */
  function SplitWhere(s: string, sep: char -> bool): (parts: seq<string>)
  {
    if IndexWhere(s, sep) == |s| then [s] else DropTrailingEmpty(Fields(s, sep))
  }

  /** String.split(" "). */
  function SplitSpace(s: string): (parts: seq<string>)
  {
    SplitWhere(s, IsSpace)
  }

  /** All pieces are empty exactly when every character is a separator. */
  lemma {:induction false} FieldsAllEmpty(s: string, sep: char -> bool)
    ensures (forall i :: 0 <= i < |Fields(s, sep)| ==> Fields(s, sep)[i] == "") <==>
            (forall i :: 0 <= i < |s| ==> sep(s[i]))
    decreases |s|
  {
    var k := IndexWhere(s, sep);
    var fs := Fields(s, sep);
    if k < |s| {
      var rest := s[k + 1..];
      var fr := Fields(rest, sep);
      FieldsAllEmpty(rest, sep);
      assert fs == [s[..k]] + fr;
      if forall i :: 0 <= i < |s| ==> sep(s[i]) {
        assert k == 0;
        forall i | 0 <= i < |rest| ensures sep(rest[i]) {
          assert rest[i] == s[k + 1 + i];
        }
        forall i | 0 <= i < |fs| ensures fs[i] == "" {
          if i > 0 { assert fs[i] == fr[i - 1]; }
        }
      }
      if forall i :: 0 <= i < |fs| ==> fs[i] == "" {
        assert fs[0] == "" && k == 0;
        forall i | 0 <= i < |fr| ensures fr[i] == "" {
          assert fr[i] == fs[i + 1];
        }
        forall i | 0 <= i < |s| ensures sep(s[i]) {
          if i > 0 { assert s[i] == rest[i - 1]; }
        }
      }
    } else if |s| > 0 {
      assert !sep(s[0]);
      assert fs == [s];
    }
  }

  /**
   * What `split(...)[0]` reads: there is no piece at all exactly when the
   * string is not empty and every character is a separator; otherwise the
   * first piece is everything before the first separator.
   */
  lemma SplitFirstPiece(s: string, sep: char -> bool)
    ensures var parts := SplitWhere(s, sep);
            (|parts| == 0 <==> |s| > 0 && forall i :: 0 <= i < |s| ==> sep(s[i])) &&
            (|parts| > 0 ==> parts[0] == s[..IndexWhere(s, sep)])
  {
    var k := IndexWhere(s, sep);
    if k < |s| {
      var fs := Fields(s, sep);
      var parts := DropTrailingEmpty(fs);
      FieldsAllEmpty(s, sep);
      if |parts| == 0 {
        assert forall i :: 0 <= i < |fs| ==> fs[i] == "";
      } else {
        assert parts[0] == fs[0];
      }
    } else if |s| > 0 {
      assert !sep(s[0]);
    }
  }

  lemma SplitNoSpace(s: string)
    requires NoSpace(s)
    ensures SplitSpace(s) == [s]
  {
    IndexWhereUnique(s, IsSpace, |s|);
  }

  /** Two non-empty space-free tokens joined by one space split into those two tokens. */
  lemma SplitTwo(a: string, b: string)
    requires NoSpace(a) && NoSpace(b) && |a| > 0 && |b| > 0
    ensures SplitSpace(a + " " + b) == [a, b]
  {
    var s := a + " " + b;
    IndexWhereUnique(s, IsSpace, |a|);
    assert s[..|a|] == a && s[|a| + 1..] == b;
    IndexWhereUnique(b, IsSpace, |b|);
    assert Fields(s, IsSpace) == [a, b];
  }

  /** A token followed by a space and nothing else splits into that token alone. */
  lemma SplitTrailingSpace(a: string)
    requires NoSpace(a) && |a| > 0
    ensures SplitSpace(a + " ") == [a]
  {
    var s := a + " ";
    IndexWhereUnique(s, IsSpace, |a|);
    assert s[..|a|] == a && s[|a| + 1..] == "";
    assert Fields(s, IsSpace) == [a, ""];
    assert [a, ""][..1] == [a];
    assert DropTrailingEmpty([a]) == [a];
  }
}
