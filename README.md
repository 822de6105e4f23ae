# svn-color-filter in Dafny

A model of `svn-color-filter.py`. This filter sits behind a shell alias for
`svn`. It reads the command's output on standard input and writes it to
standard output. For the subcommands that print per-file status lines
(`status`, `stat`, `st`, `add`, `remove`), it wraps each line whose first
character is a status marker in ANSI SGR escape sequences (ECMA-48, section
8.3.117). The opening sequence is `ESC [ code m`, where the code picks the
marker's colour. The closing sequence is `ESC [ m`, which resets all
attributes. For any other subcommand the input is copied unchanged.

The project has three modules, one file each:

- `status_color.dfy` (module `StatusColor`): the status table, in
  definition order, as a `seq` of (marker, code) pairs. It also holds the
  first-match `Lookup`, the SGR `Wrap` and its inverse `Unwrap`, and
  `Colorize`, the model of `colorize(line)`.
- `line_stream.dfy` (module `LineStream`): standard input as a text.
  `ReadLine` models one `sys.stdin.readline()`: the text up to and
  including the next newline, or `""` at the end. `Lines` gives the lines
  the read loop sees before the empty read. `Join` concatenates lines back
  together.
- `color_filter.dfy` (module `ColorFilter`): the `__main__` block.
  - `Run` picks the subcommand the way the source does. It then runs one of
    the two `while True` read/write loops, `ColorizeStream` or `CopyStream`,
    and returns what was written.
  - `Filter` is the specification `Run` is proved against.

Python 2 iterates a dict in an arbitrary order. The model does not depend
on that order: `AtMostOneMatch` proves that no line starts with two
markers, and `LookupOrderIndependent` proves that any table holding the
same entries gives the same lookup result.

In the source, `colorize` is idempotent: a coloured line starts with ESC,
and ESC is not a marker. `ColorizeIdempotent` proves this.

The subcommand expression `(command[1], '')[len(command) < 2]` appears
inside a branch where `len(command) > 1`, so it always picks `command[1]`.
`Run` keeps the expression as written. Its body proves that the result
equals `Subcommand(argv)`, and its contract is stated in terms of
`Subcommand`.

## Model

| member | source | states |
|---|---|---|
| `StatusColor.LookupFirstMatch` | svn-color-filter.py:39-43 | Lookup returns None exactly when no marker of the table starts the line; otherwise returns the code of a matching entry with no matching entry before it (first match in table order) |
| `StatusColor.MarkersDistinct` | svn-color-filter.py:27-36 | every marker in the table is one character, and no two markers are equal |
| `StatusColor.AtMostOneMatch` | svn-color-filter.py:27-40 | no line starts with the markers of two different entries |
| `StatusColor.LookupOrderIndependent` | svn-color-filter.py:27-40 | searching the table's entries in any order gives the same result, so the dict's iteration order does not matter |
| `StatusColor.ColorizeMarked` | svn-color-filter.py:38-41 | a line that starts with the marker of entry i becomes ESC "[" + code(i) + "m" + the whole line, newline included + ESC "[m" |
| `StatusColor.ColorizeUnmarked` | svn-color-filter.py:42-43 | a line that starts with no marker is returned unchanged |
| `StatusColor.ColorizeChangesIffMarked` | svn-color-filter.py:38-43 | colorize changes a line if and only if the line starts with a marker |
| `StatusColor.ColorizeRoundTrip` | svn-color-filter.py:41 | a coloured line is len(line) + len(code) + 6 long, and removing the SGR prefix and suffix gives back the original line |
| `StatusColor.UnwrapWrap` | svn-color-filter.py:41 | for any code and line, removing the wrapping gives back the line |
| `StatusColor.ColorizeIdempotent` | svn-color-filter.py:28-43 | colorizing a line a second time changes nothing |
| `StatusColor.ColorizeModifiedExample` | svn-color-filter.py:28 | "M  foo.txt\n" becomes ESC "[31m" + the line + ESC "[m" |
| `StatusColor.ColorizeUnversionedExample` | svn-color-filter.py:29 | "?   newfile.txt\n" becomes ESC "[37m" + the line + ESC "[m" |
| `StatusColor.BlankOrSpaceUnmarked` | svn-color-filter.py:42-43 | an empty line, or a line starting with a newline or a space, is not coloured |
| `StatusColor.ColorizeUnmarkedExamples` | svn-color-filter.py:42-43 | "\n", "" and " foo" are returned unchanged |
| `LineStream.ReadLine` | svn-color-filter.py:54 | a read returns a prefix of the remaining input, and it is empty only at the end of input |
| `LineStream.ReadLineIsLine` | svn-color-filter.py:54 | a read before the end has no newline before its last character, and it ends with a newline unless it takes the rest of the input |
| `LineStream.ReadLineAtBoundary` | svn-color-filter.py:54 | a read from input ending in a newline returns a line ending in a newline, and what is left is empty or ends in a newline |
| `LineStream.ReadLineAppend` | svn-color-filter.py:63 | a read from input that ends with a newline does not depend on what comes after that input |
| `LineStream.ReadLineOfLine` | svn-color-filter.py:63 | when the remaining input starts with a whole line, the read returns exactly that line |
| `LineStream.JoinLines` | svn-color-filter.py:53-56 | the lines read before the empty read, put back together, are the whole input |
| `LineStream.LinesWellFormed` | svn-color-filter.py:53-56 | every line read before the end is non-empty, and every line but the last ends with a newline |
| `LineStream.LinesJoin` | svn-color-filter.py:62-65 | reading the concatenation of such lines gives back exactly those lines |
| `LineStream.LinesAppend` | svn-color-filter.py:53-56 | input split after a newline is read as the lines of the first part followed by the lines of the second |
| `ColorFilter.Run` | svn-color-filter.py:46-68 | the written output is Filter(subcommand, stdin), where the subcommand is argv[1], or "" when there is no argument; for a subcommand outside the coloured set the output equals the input |
| `ColorFilter.ColorizeStream` | svn-color-filter.py:53-58 | the colouring loop writes the output that Filter specifies for the lines it reads |
| `ColorFilter.CopyStream` | svn-color-filter.py:62-66 | the copying loop writes exactly its input |
| `ColorFilter.OutputStep` | svn-color-filter.py:54-58 | the output for the remaining input is what is written for the next line read, followed by the output for the rest |
| `ColorFilter.OutputPlain` | svn-color-filter.py:61-66 | copying the lines without colour writes their concatenation |
| `ColorFilter.OutputAppend` | svn-color-filter.py:53-58 | the output for lines a + b is the output for a followed by the output for b |
| `ColorFilter.OutputLineByLine` | svn-color-filter.py:53-58 | the output is the concatenation, in input order, of what is written for each line |
| `ColorFilter.PassThrough` | svn-color-filter.py:61-66 | for a subcommand outside the coloured set, the output equals the input exactly |
| `ColorFilter.NoArgumentPassesThrough` | svn-color-filter.py:48-52 | with no argument the subcommand is "", and the input passes through unchanged |
| `ColorFilter.DiffPassesThrough` | svn-color-filter.py:17-25 | "diff" and "di", which are commented out of the coloured set, leave the input unchanged |
| `ColorFilter.ColorizedLines` | svn-color-filter.py:52-58 | for a coloured subcommand, input made of lines l1 … ln gives colorize(l1) + … + colorize(ln) |
| `ColorFilter.FilterAppend` | svn-color-filter.py:53-66 | each line is handled on its own: the output for s1 + s2, with s1 ending in a newline, is the output for s1 followed by the output for s2 |
| `ColorFilter.SingleLine` | svn-color-filter.py:53-58 | input of one line gives what is written for that line |
| `ColorFilter.EmptyInput` | svn-color-filter.py:53-56 | an empty input gives an empty output for every subcommand |
| `ColorFilter.StatusModifiedExample` | svn-color-filter.py:52-58 | `status` with "M  foo.txt\n" writes ESC "[31mM  foo.txt\n" ESC "[m" |
| `ColorFilter.StatusUnversionedExample` | svn-color-filter.py:52-58 | `status` with "?   newfile.txt\n" writes that line wrapped with code 37 |
| `ColorFilter.DiffExample` | svn-color-filter.py:61-66 | `diff` with "M  foo.txt\n" writes the line unchanged |
| `ColorFilter.BlankLineExample` | svn-color-filter.py:53-66 | for every subcommand, a blank line "\n" is read as a line, not as the end of input, and is written unchanged |

## Left out

- Reading standard input and writing standard output, the final `flush` and `sys.exit(0)`: input is a string parameter and output is the returned string. The program exits with status 0 when it reaches the end of input. An I/O error while writing or flushing (a closed pipe, say) or an interrupt while reading ends the program with an uncaught exception and a non-zero status; the model does not represent that path.
- Python's `readline` itself is library code. `ReadLine` models its documented behaviour on text: it returns up to and including the next newline, or an empty string at the end of the stream.
- The unused `subprocess` import and the commented-out `isatty` branch: they have no behaviour.
- How a terminal renders the escape sequences: only the characters written are modelled.
- Bytes against characters: lines are `seq<char>`, and the source's Python 2 byte strings are not told apart from text.
