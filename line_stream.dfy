/** Standard input as the filter reads it: a text from which each read takes
    the next line, up to and including its newline, and an empty read means
    the end of the stream. */
module LineStream {

  /** A line as a read returns it: not empty, and no newline before its
      last character. */
  predicate IsLine(l: string)
  {
    l != [] && forall k :: 0 <= k < |l| - 1 ==> l[k] != '\n'
  }

  /** The text ends with a newline. */
  predicate EndsWithNewline(s: string)
  {
    s != [] && s[|s| - 1] == '\n'
  }

  /** A sequence of lines that successive reads can return: every line but
      the last one ends with its newline. */
  predicate WellFormed(ls: seq<string>)
  {
    forall i :: 0 <= i < |ls| ==> IsLine(ls[i]) && (i < |ls| - 1 ==> EndsWithNewline(ls[i]))
  }

  /** One read of a line from the remaining input s: everything up to and
      including the first newline, or all of s when it has none. */
  function ReadLine(s: string): (l: string)
    ensures l <= s
    ensures l == [] <==> s == []
  {
    if s == [] then []
    else if s[0] == '\n' then ['\n']
    else [s[0]] + ReadLine(s[1..])
  }

  /** A read before the end returns a line, and it ends with a newline
      unless it takes all of the remaining input. */
  lemma {:induction false} ReadLineIsLine(s: string)
    requires s != []
    ensures IsLine(ReadLine(s))
    ensures |ReadLine(s)| < |s| ==> EndsWithNewline(ReadLine(s))
  {
    if s[0] != '\n' && |s| > 1 {
      ReadLineIsLine(s[1..]);
      var l := ReadLine(s);
      assert l == [s[0]] + ReadLine(s[1..]);
      assert forall k :: 1 <= k < |l| ==> l[k] == ReadLine(s[1..])[k - 1];
    }
  }

  /** The lines successive reads return before the empty read. */
  function Lines(s: string): seq<string>
    decreases |s|
  {
    if s == [] then []
    else
      var l := ReadLine(s);
      [l] + Lines(s[|l|..])
  }

  /** The concatenation of a sequence of lines. */
  function Join(ls: seq<string>): string
  {
    if ls == [] then [] else ls[0] + Join(ls[1..])
  }

  /** The lines read from a text make up the text. */
  lemma {:induction false} JoinLines(s: string)
    ensures Join(Lines(s)) == s
    decreases |s|
  {
    if s != [] {
      var l := ReadLine(s);
      JoinLines(s[|l|..]);
      assert s == l + s[|l|..];
    }
  }

  /** Every read before the end is a non-empty line, and every line but the
      last one ends with its newline. */
  lemma {:induction false} LinesWellFormed(s: string)
    ensures WellFormed(Lines(s))
    decreases |s|
  {
    if s != [] {
      var l := ReadLine(s);
      ReadLineIsLine(s);
      LinesWellFormed(s[|l|..]);
      var ls := Lines(s);
      assert ls == [l] + Lines(s[|l|..]);
      forall i | 0 <= i < |ls|
        ensures IsLine(ls[i]) && (i < |ls| - 1 ==> EndsWithNewline(ls[i]))
      {
        if i == 0 {
          if |ls| > 1 {
            assert s[|l|..] != [];
          }
        } else {
          assert ls[i] == Lines(s[|l|..])[i - 1];
        }
      }
    }
  }

  /** A read from a text that starts with a whole line returns that line. */
  lemma {:induction false} ReadLineOfLine(l: string, rest: string)
    requires IsLine(l)
    requires EndsWithNewline(l) || rest == []
    ensures ReadLine(l + rest) == l
    decreases |l|
  {
    if l[0] == '\n' {
      assert |l| == 1;
    } else if |l| == 1 {
      assert rest == [];
      assert l + rest == l;
    } else {
      assert (l + rest)[1..] == l[1..] + rest;
      ReadLineOfLine(l[1..], rest);
      assert l == [l[0]] + l[1..];
    }
  }

  /** Reading back the concatenation of well-formed lines gives those lines. */
  lemma {:induction false} LinesJoin(ls: seq<string>)
    requires WellFormed(ls)
    ensures Lines(Join(ls)) == ls
  {
    if ls != [] {
      var rest := Join(ls[1..]);
      assert Join(ls) == ls[0] + rest;
      if |ls| == 1 {
        assert rest == [];
      }
      ReadLineOfLine(ls[0], rest);
      assert (ls[0] + rest)[|ls[0]|..] == rest;
      assert WellFormed(ls[1..]) by {
        forall i | 0 <= i < |ls[1..]|
          ensures IsLine(ls[1..][i]) && (i < |ls[1..]| - 1 ==> EndsWithNewline(ls[1..][i]))
        {
          assert ls[1..][i] == ls[i + 1];
        }
      }
      LinesJoin(ls[1..]);
      assert ls == [ls[0]] + ls[1..];
    }
  }

  /** Reading from input that ends with a newline returns a line that ends
      with a newline, and what follows it also ends with one or is empty. */
  lemma ReadLineAtBoundary(s: string)
    requires EndsWithNewline(s)
    ensures EndsWithNewline(ReadLine(s))
    ensures var tail := s[|ReadLine(s)|..]; tail == [] || EndsWithNewline(tail)
  {
    var l := ReadLine(s);
    ReadLineIsLine(s);
    if |l| == |s| {
      assert l == s;
    } else {
      var tail := s[|l|..];
      assert tail[|tail| - 1] == s[|s| - 1];
    }
  }

  /** A read from input that ends with a newline is not changed by what
      follows the input. */
  lemma {:induction false} ReadLineAppend(s1: string, s2: string)
    requires EndsWithNewline(s1)
    ensures ReadLine(s1 + s2) == ReadLine(s1)
  {
    if s1[0] != '\n' {
      assert |s1| > 1;
      assert (s1 + s2)[1..] == s1[1..] + s2;
      ReadLineAppend(s1[1..], s2);
    }
  }

  /** Input that ends at a line boundary splits into lines independently of
      what follows it. */
  lemma {:induction false} LinesAppend(s1: string, s2: string)
    requires s1 == [] || EndsWithNewline(s1)
    ensures Lines(s1 + s2) == Lines(s1) + Lines(s2)
    decreases |s1|
  {
    if s1 == [] {
      assert s1 + s2 == s2;
    } else {
      var l := ReadLine(s1);
      var tail := s1[|l|..];
      assert ReadLine(s1 + s2) == l by {
        ReadLineAppend(s1, s2);
      }
      assert (s1 + s2)[|l|..] == tail + s2;
      assert tail == [] || EndsWithNewline(tail) by {
        ReadLineAtBoundary(s1);
      }
      LinesAppend(tail, s2);
    }
  }
}
