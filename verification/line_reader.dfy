/** lsh_read_line: read one line of standard input into a growable, NUL-terminated buffer.
    Standard input is a finite sequence of characters; its end stands for EOF. */
module LineReader {
  import opened LibC
  import opened ShellConfig

  /** What getchar() yields: a character, or EOF. */
  datatype Getc = Eof | Chr(ch: char)

  /** The characters of `input` before its first newline, or all of it when it has none. */
  function LinePrefix(input: seq<char>): (line: seq<char>)
    ensures |line| <= |input| && line == input[..|line|]
    ensures '\n' !in line
    ensures |line| == |input| || input[|line|] == '\n'
  {
    if input == [] || input[0] == '\n' then [] else [input[0]] + LinePrefix(input[1..])
  }

  /** The three facts LinePrefix ensures pin it down: no other prefix has them. */
  lemma LinePrefixUnique(input: seq<char>, line: seq<char>)
    requires |line| <= |input| && line == input[..|line|]
    requires '\n' !in line
    requires |line| == |input| || input[|line|] == '\n'
    ensures LinePrefix(input) == line
  {
  }

  /** Writing a newline-free line, then a newline or EOF, and reading it back gives the line. */
  lemma ReadBack(line: seq<char>, rest: seq<char>)
    requires '\n' !in line
    ensures LinePrefix(line + ['\n'] + rest) == line
    ensures LinePrefix(line) == line
  {
    LinePrefixUnique(line + ['\n'] + rest, line);
    LinePrefixUnique(line, line);
  }

  /** The line is empty exactly when EOF or a newline comes first. */
  lemma EmptyLine(input: seq<char>)
    ensures LinePrefix(input) == [] <==> input == [] || input[0] == '\n'
  {
  }

  /** lsh_read_line on standard input `input`: returns the buffer and the input left unread.
      The buffer holds the line before the first newline, then a NUL; its size is the
      least multiple of ReadLineBufSize above the line's length. */
  method ReadLine(input: seq<char>) returns (buffer: array<char>, rest: seq<char>)
    ensures fresh(buffer)
    ensures buffer.Length == Capacity(|LinePrefix(input)|, ReadLineBufSize)
    ensures |LinePrefix(input)| < buffer.Length
    ensures buffer[..|LinePrefix(input)|] == LinePrefix(input)
    ensures buffer[|LinePrefix(input)|] == NUL
    ensures NUL !in input ==> CString(buffer[..]) == LinePrefix(input)
    ensures if |LinePrefix(input)| == |input| then rest == []
            else input == LinePrefix(input) + ['\n'] + rest
  {
    var bufsize := ReadLineBufSize;
    var position := 0;
    buffer := new char[bufsize];
    var stdin := input;
    while true
      invariant fresh(buffer) && buffer.Length == bufsize
      invariant position < bufsize
      invariant bufsize == Capacity(position, ReadLineBufSize)
      invariant position <= |input| && stdin == input[position..]
      invariant forall i :: 0 <= i < position ==> buffer[i] == input[i] && input[i] != '\n'
      decreases |stdin|
    {
      var c := if stdin == [] then Eof else Chr(stdin[0]);
      stdin := if stdin == [] then [] else stdin[1..];
      if c == Eof || c == Chr('\n') {
        buffer[position] := NUL;
        assert buffer[..position] == input[..position];
        LinePrefixUnique(input, input[..position]);
        rest := stdin;
        if NUL !in input {
          CStringOfTerminated(buffer[..], 0, input[..position]);
        }
        return;
      }
      buffer[position] := c.ch;
      CapacityNext(position, ReadLineBufSize);
      position := position + 1;
      if position >= bufsize {
        bufsize := bufsize + ReadLineBufSize;
        buffer := Realloc(buffer, bufsize);
      }
    }
  }
}
