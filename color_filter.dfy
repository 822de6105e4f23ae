/** The filter program: it picks the subcommand from the command line and
    copies standard input to standard output line by line, colouring each
    line when the subcommand is one that prints file status lines. */
module ColorFilter {
  import opened StatusColor
  import opened LineStream

  /** The subcommands whose output is coloured ("diff" and "di" are not
      among them). */
  const ColorizedSubcommands: seq<string> := ["status", "stat", "st", "add", "remove"]

  predicate IsColorized(subcommand: string)
  {
    subcommand in ColorizedSubcommands
  }

  /** The subcommand: the first argument after the program name, or the
      empty string when there is none. */
  function Subcommand(argv: seq<string>): string
  {
    if |argv| > 1 then argv[1] else ""
  }

  /** What is written for one line read. */
  function Emit(colorized: bool, line: string): string
  {
    if colorized then Colorize(line) else line
  }

  /** What is written for a sequence of lines read, in order. */
  function Output(colorized: bool, ls: seq<string>): string
  {
    if ls == [] then [] else Emit(colorized, ls[0]) + Output(colorized, ls[1..])
  }

  /** The whole standard output for a subcommand and a standard input. */
  function Filter(subcommand: string, stdin: string): string
  {
    Output(IsColorized(subcommand), Lines(stdin))
  }

  /** The program run on the command-line arguments argv (argv[0] is the
      program name) and the text of standard input; it returns the text
      written to standard output. The program exits with status 0 when it
      reaches the end of input; an I/O error ends it with an uncaught
      exception, which is not modelled. */
  method Run(argv: seq<string>, stdin: string) returns (stdout: string)
    ensures stdout == Filter(Subcommand(argv), stdin)
    ensures !IsColorized(Subcommand(argv)) ==> stdout == stdin
  {
    var subcommand: string;
    if |argv| > 1 {
      var choices := [argv[1], ""];
      subcommand := choices[if |argv| < 2 then 1 else 0];
    } else {
      subcommand := "";
    }
    assert subcommand == Subcommand(argv);
    if subcommand in ColorizedSubcommands {
      stdout := ColorizeStream(stdin);
    } else {
      stdout := CopyStream(stdin);
      PassThrough(subcommand, stdin);
    }
  }

  /** The loop for a coloured subcommand: read lines until the empty read
      and write each one colourised. */
  method ColorizeStream(stdin: string) returns (stdout: string)
    ensures stdout == Output(true, Lines(stdin))
  {
    var rest := stdin;  // the part of standard input not read yet
    stdout := "";
    while true
      invariant stdout + Output(true, Lines(rest)) == Output(true, Lines(stdin))
      decreases |rest|
    {
      var line := ReadLine(rest);
      if line == "" {
        break;
      }
      var next := rest[|line|..];
      OutputStep(true, rest);
      stdout := stdout + Colorize(line);
      rest := next;
    }
    assert Output(true, Lines(rest)) == [];
  }

  /** The loop for any other subcommand: read lines until the empty read
      and write each one as it is. */
  method CopyStream(stdin: string) returns (stdout: string)
    ensures stdout == stdin
  {
    var rest := stdin;  // the part of standard input not read yet
    stdout := "";
    while true
      invariant stdout + rest == stdin
      decreases |rest|
    {
      var line := ReadLine(rest);
      if line == "" {
        break;
      }
      stdout := stdout + line;
      rest := rest[|line|..];
    }
  }

  /** One read and one write: the output for the remaining input is what is
      written for the line read next, then the output for what follows it. */
  lemma OutputStep(colorized: bool, s: string)
    requires s != []
    ensures Output(colorized, Lines(s)) ==
            Emit(colorized, ReadLine(s)) + Output(colorized, Lines(s[|ReadLine(s)|..]))
  {
    var ls := Lines(s);
    assert ls[1..] == Lines(s[|ReadLine(s)|..]);
  }

  /** Copying without colour writes the lines' concatenation. */
  lemma {:induction false} OutputPlain(ls: seq<string>)
    ensures Output(false, ls) == Join(ls)
  {
    if ls != [] {
      OutputPlain(ls[1..]);
    }
  }

  /** Output is written line by line: for a split sequence of lines it is
      the output of the first part followed by that of the second. */
  lemma {:induction false} OutputAppend(colorized: bool, a: seq<string>, b: seq<string>)
    ensures Output(colorized, a + b) == Output(colorized, a) + Output(colorized, b)
  {
    if a == [] {
      assert a + b == b;
    } else {
      assert (a + b)[1..] == a[1..] + b;
      OutputAppend(colorized, a[1..], b);
    }
  }

  /** The output is the concatenation, in order, of what is written for
      each line. */
  lemma {:induction false} OutputLineByLine(colorized: bool, ls: seq<string>)
    ensures Output(colorized, ls) == Join(seq(|ls|, i requires 0 <= i < |ls| => Emit(colorized, ls[i])))
  {
    if ls != [] {
      OutputLineByLine(colorized, ls[1..]);
      var all := seq(|ls|, i requires 0 <= i < |ls| => Emit(colorized, ls[i]));
      assert all[1..] == seq(|ls[1..]|, i requires 0 <= i < |ls[1..]| => Emit(colorized, ls[1..][i]));
    }
  }

  /** For a subcommand outside the coloured set the output is the input,
      byte for byte. */
  lemma PassThrough(subcommand: string, stdin: string)
    requires !IsColorized(subcommand)
    ensures Filter(subcommand, stdin) == stdin
  {
    OutputPlain(Lines(stdin));
    JoinLines(stdin);
  }

  /** With no argument the subcommand is empty, which is not coloured, so
      the input passes through unchanged. */
  lemma NoArgumentPassesThrough(argv: seq<string>, stdin: string)
    requires |argv| < 2
    ensures Subcommand(argv) == ""
    ensures Filter(Subcommand(argv), stdin) == stdin
  {
    PassThrough("", stdin);
  }

  /** "diff" and "di" are not coloured. */
  lemma DiffPassesThrough(stdin: string)
    ensures Filter("diff", stdin) == stdin
    ensures Filter("di", stdin) == stdin
  {
    PassThrough("diff", stdin);
    PassThrough("di", stdin);
  }

  /** For a coloured subcommand, reading lines ls gives the colourised
      lines, in order. */
  lemma ColorizedLines(subcommand: string, ls: seq<string>)
    requires IsColorized(subcommand)
    requires WellFormed(ls)
    ensures Filter(subcommand, Join(ls)) == Join(seq(|ls|, i requires 0 <= i < |ls| => Colorize(ls[i])))
  {
    LinesJoin(ls);
    OutputLineByLine(true, ls);
    assert seq(|ls|, i requires 0 <= i < |ls| => Emit(true, ls[i]))
        == seq(|ls|, i requires 0 <= i < |ls| => Colorize(ls[i]));
  }

  /** Lines are handled independently: input split at a line boundary gives
      the output of the first part followed by that of the second. */
  lemma FilterAppend(subcommand: string, s1: string, s2: string)
    requires s1 == [] || EndsWithNewline(s1)
    ensures Filter(subcommand, s1 + s2) == Filter(subcommand, s1) + Filter(subcommand, s2)
  {
    LinesAppend(s1, s2);
    OutputAppend(IsColorized(subcommand), Lines(s1), Lines(s2));
  }

  /** Input of a single line gives what is written for that line. */
  lemma SingleLine(subcommand: string, line: string)
    requires IsLine(line)
    ensures Filter(subcommand, line) == Emit(IsColorized(subcommand), line)
  {
    ReadLineOfLine(line, []);
    assert line + [] == line;
    assert line[|line|..] == [];
    assert Lines(line) == [line];
    assert [line][1..] == [];
    var e := Emit(IsColorized(subcommand), line);
    assert Output(IsColorized(subcommand), [line]) == e + [];
    assert e + [] == e;
  }

  /** An empty input gives an empty output, whatever the subcommand. */
  lemma EmptyInput(subcommand: string)
    ensures Filter(subcommand, "") == ""
  {
  }

  /** "svn status" on a modified file: the line is shown in red. */
  lemma StatusModifiedExample()
    ensures Filter("status", "M  foo.txt\n") == "\U{1B}[31mM  foo.txt\n\U{1B}[m"
  {
    assert IsLine("M  foo.txt\n");
    SingleLine("status", "M  foo.txt\n");
    ColorizeModifiedExample();
  }

  /** "svn diff" output is left alone, even where a line looks like a
      status line. */
  lemma DiffExample()
    ensures Filter("diff", "M  foo.txt\n") == "M  foo.txt\n"
  {
    PassThrough("diff", "M  foo.txt\n");
  }

  /** "svn status" on an unversioned file: the line is shown in grey. */
  lemma StatusUnversionedExample()
    ensures Filter("status", "?   newfile.txt\n") == "\U{1B}[37m?   newfile.txt\n\U{1B}[m"
  {
    assert IsLine("?   newfile.txt\n");
    SingleLine("status", "?   newfile.txt\n");
    ColorizeUnversionedExample();
  }

  /** A blank line is a line, not the end of input, and is not coloured. */
  lemma BlankLineExample(subcommand: string)
    ensures Filter(subcommand, "\n") == "\n"
  {
    if IsColorized(subcommand) {
      ColorizedLines(subcommand, ["\n"]);
      ColorizeUnmarkedExamples();
    } else {
      PassThrough(subcommand, "\n");
    }
  }
}
