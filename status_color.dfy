/** The status-colour table of the filter and the per-line colouring
    function: a line whose first character is a Subversion status marker is
    wrapped in an ANSI SGR escape sequence (ECMA-48, section 8.3.117) that
    selects the marker's colour and one that resets all attributes. */
module StatusColor {

  datatype Option<T> = None | Some(value: T)

  /** The escape character that opens a control sequence. */
  const Esc: char := '\U{1B}'

  /** Control Sequence Introducer, ESC '['. */
  const Csi: string := [Esc, '[']

  /** SGR with no parameter: reset every attribute. */
  const Reset: string := Csi + "m"

  /** A status marker and the SGR parameter string it is shown with. */
  type Entry = (string, string)

  /** The status table, entries in definition order. */
  const StatusColors: seq<Entry> := [
    ("M", "31"),     // red
    ("?", "37"),     // grey
    ("A", "32"),     // green
    ("X", "33"),     // yellow
    ("C", "30;41"),  // black on red
    ("-", "31"),     // red
    ("D", "31;1"),   // bold red
    ("+", "32")      // green
  ]

  /** Entry i of table t is the one the line starts with. */
  predicate Matches(t: seq<Entry>, i: int, line: string)
  {
    0 <= i < |t| && t[i].0 <= line
  }

  /** First-match search of a table: the code of the first entry whose marker
      the line starts with, or None when no entry matches. */
  function Lookup(t: seq<Entry>, line: string): Option<string>
  {
    if t == [] then None
    else if t[0].0 <= line then Some(t[0].1)
    else Lookup(t[1..], line)
  }

  /** Lookup finds nothing exactly when no marker of the table starts the
      line; otherwise it finds the code of a matching entry that no matching
      entry precedes. */
  lemma {:induction false} LookupFirstMatch(t: seq<Entry>, line: string)
    ensures Lookup(t, line).None? <==> forall i :: 0 <= i < |t| ==> !Matches(t, i, line)
    ensures Lookup(t, line).Some? ==>
              exists i :: Matches(t, i, line) && t[i].1 == Lookup(t, line).value &&
                          forall j :: 0 <= j < i ==> !Matches(t, j, line)
  {
    if t == [] {
    } else if t[0].0 <= line {
      assert Matches(t, 0, line);
    } else {
      var r := Lookup(t[1..], line);
      LookupFirstMatch(t[1..], line);
      assert forall i :: 0 <= i < |t| - 1 ==> (Matches(t[1..], i, line) <==> Matches(t, i + 1, line));
      if r.Some? {
        var i :| Matches(t[1..], i, line) && t[1..][i].1 == r.value &&
                 forall j :: 0 <= j < i ==> !Matches(t[1..], j, line);
        assert Matches(t, i + 1, line) && t[i + 1].1 == r.value;
        forall j | 0 <= j < i + 1 ensures !Matches(t, j, line) {
          if j > 0 { assert !Matches(t[1..], j - 1, line); }
        }
      } else {
        forall i | 0 <= i < |t| ensures !Matches(t, i, line) {
          if i > 0 { assert !Matches(t[1..], i - 1, line); }
        }
      }
    }
  }

  /** The SGR wrapping of a line: ESC '[' code 'm', the line itself, ESC '[' 'm'. */
  function Wrap(code: string, line: string): string
  {
    Csi + code + "m" + line + Reset
  }

  /** Removes the wrapping Wrap(code, _) adds, if it is there. */
  function Unwrap(code: string, s: string): (r: Option<string>)
  {
    var open := Csi + code + "m";
    if |open| + |Reset| <= |s| && open <= s && s[|s| - |Reset|..] == Reset
    then Some(s[|open|..|s| - |Reset|])
    else None
  }

  /** colorize(line): wraps the line with the code of the marker it starts
      with, or returns it unchanged. */
  function Colorize(line: string): string
  {
    match Lookup(StatusColors, line)
    case Some(code) => Wrap(code, line)
    case None => line
  }

  /** Every marker is one character and no two markers are equal. */
  lemma MarkersDistinct()
    ensures forall i :: 0 <= i < |StatusColors| ==> |StatusColors[i].0| == 1
    ensures forall i, j :: 0 <= i < j < |StatusColors| ==> StatusColors[i].0 != StatusColors[j].0
  {
  }

  /** At most one entry of the table matches any line. */
  lemma AtMostOneMatch(line: string, i: int, j: int)
    requires Matches(StatusColors, i, line) && Matches(StatusColors, j, line)
    ensures i == j
  {
    MarkersDistinct();
    assert StatusColors[i].0 == line[..1] == StatusColors[j].0;
  }

  /** A line that starts with the marker of entry i is wrapped with that
      entry's code, whatever the entry's position in the table. */
  lemma ColorizeMarked(line: string, i: int)
    requires Matches(StatusColors, i, line)
    ensures Colorize(line) == Csi + StatusColors[i].1 + "m" + line + Reset
  {
    LookupFirstMatch(StatusColors, line);
    var r := Lookup(StatusColors, line);
    var k :| Matches(StatusColors, k, line) && StatusColors[k].1 == r.value;
    AtMostOneMatch(line, i, k);
  }

  /** A line that starts with no marker is returned unchanged. */
  lemma ColorizeUnmarked(line: string)
    requires forall i :: 0 <= i < |StatusColors| ==> !(StatusColors[i].0 <= line)
    ensures Colorize(line) == line
  {
    LookupFirstMatch(StatusColors, line);
    assert forall i :: 0 <= i < |StatusColors| ==> !Matches(StatusColors, i, line);
  }

  /** Colorize changes a line exactly when the line starts with a marker. */
  lemma ColorizeChangesIffMarked(line: string)
    ensures Colorize(line) != line <==> exists i :: 0 <= i < |StatusColors| && StatusColors[i].0 <= line
  {
    if exists i :: 0 <= i < |StatusColors| && StatusColors[i].0 <= line {
      var i :| 0 <= i < |StatusColors| && StatusColors[i].0 <= line;
      ColorizeMarked(line, i);
      assert |Colorize(line)| > |line|;
    } else {
      ColorizeUnmarked(line);
    }
  }

  /** A coloured line is the original length plus the code plus six escape
      characters, and stripping the escapes gives back the original line. */
  lemma ColorizeRoundTrip(line: string, i: int)
    requires Matches(StatusColors, i, line)
    ensures |Colorize(line)| == |line| + |StatusColors[i].1| + 6
    ensures Unwrap(StatusColors[i].1, Colorize(line)) == Some(line)
  {
    ColorizeMarked(line, i);
    var code := StatusColors[i].1;
    var s := Colorize(line);
    var open := Csi + code + "m";
    assert s == open + line + Reset;
    assert open <= s;
    assert s[|s| - |Reset|..] == Reset;
    assert s[|open|..|s| - |Reset|] == line;
  }

  /** Wrap and Unwrap are inverse for every code and line. */
  lemma UnwrapWrap(code: string, line: string)
    ensures Unwrap(code, Wrap(code, line)) == Some(line)
  {
    var s := Wrap(code, line);
    var open := Csi + code + "m";
    assert s == open + line + Reset;
    assert open <= s;
    assert s[|s| - |Reset|..] == Reset;
    assert s[|open|..|s| - |Reset|] == line;
  }

  /** Colorize is idempotent: a coloured line starts with ESC, which is not
      a marker. */
  lemma ColorizeIdempotent(line: string)
    ensures Colorize(Colorize(line)) == Colorize(line)
  {
    var s := Colorize(line);
    if s != line {
      assert s[0] == Esc;
      forall i | 0 <= i < |StatusColors|
        ensures !(StatusColors[i].0 <= s)
      {
        MarkersDistinct();
        assert StatusColors[i].0[0] != Esc;
      }
      ColorizeUnmarked(s);
    }
  }

  /** The result does not depend on the order in which the table is
      searched: any table holding the same entries gives the same result. */
  lemma LookupOrderIndependent(t: seq<Entry>, line: string)
    requires forall e :: e in t <==> e in StatusColors
    ensures Lookup(t, line) == Lookup(StatusColors, line)
  {
    LookupFirstMatch(StatusColors, line);
    LookupFirstMatch(t, line);
    var r := Lookup(StatusColors, line);
    var q := Lookup(t, line);
    if q.Some? {
      var i :| Matches(t, i, line) && t[i].1 == q.value;
      assert t[i] in StatusColors;
      var j :| 0 <= j < |StatusColors| && StatusColors[j] == t[i];
      assert Matches(StatusColors, j, line);
      var k :| Matches(StatusColors, k, line) && StatusColors[k].1 == r.value;
      AtMostOneMatch(line, j, k);
    } else if r.Some? {
      var k :| Matches(StatusColors, k, line) && StatusColors[k].1 == r.value;
      assert StatusColors[k] in t;
      var j :| 0 <= j < |t| && t[j] == StatusColors[k];
      assert Matches(t, j, line);
    }
  }

  /** A modified file's status line is shown in red. */
  lemma ColorizeModifiedExample()
    ensures Colorize("M  foo.txt\n") == "\U{1B}[31mM  foo.txt\n\U{1B}[m"
  {
    ColorizeMarked("M  foo.txt\n", 0);
  }

  /** An unversioned file's status line is shown in grey. */
  lemma ColorizeUnversionedExample()
    ensures Colorize("?   newfile.txt\n") == "\U{1B}[37m?   newfile.txt\n\U{1B}[m"
  {
    ColorizeMarked("?   newfile.txt\n", 1);
  }

  /** A blank line, an empty string and a line starting with a space are
      left as they are. */
  lemma ColorizeUnmarkedExamples()
    ensures Colorize("\n") == "\n"
    ensures Colorize("") == ""
    ensures Colorize(" foo") == " foo"
  {
    BlankOrSpaceUnmarked("\n");
    BlankOrSpaceUnmarked("");
    BlankOrSpaceUnmarked(" foo");
  }

  /** No marker is a newline or a space. */
  lemma BlankOrSpaceUnmarked(line: string)
    requires line == [] || line[0] == '\n' || line[0] == ' '
    ensures Colorize(line) == line
  {
    MarkersDistinct();
    forall i | 0 <= i < |StatusColors|
      ensures !(StatusColors[i].0 <= line)
    {
      assert line != [] ==> StatusColors[i].0[0] != line[0];
    }
    ColorizeUnmarked(line);
  }
}
