# lsh: reading and splitting a command line

This project models the read-and-parse half of the `lsh` interpreter loop:

- `lsh_read_line` reads standard input one character at a time into a heap buffer. It stops at
  a newline or at EOF, stores a NUL terminator and returns the buffer. The buffer starts with
  `LSH_RL_BUFSIZE` (1024) cells and grows by 1024 cells through `realloc` each time it fills up.
- `lsh_split_line` splits that NUL-terminated line in place with `strtok`. The delimiters are
  space, tab, carriage return, newline and bell (`LSH_TOK_DELIM`). Each token pointer goes into
  an array that starts with `LSH_TOK_BUFSIZE` (64) slots and grows by 64 slots. The array ends
  with a NULL sentinel.

Files:

- `shell_config.dfy` (module `ShellConfig`) holds the three constants of `shell.h`.
- `libc.dfy` (module `LibC`) holds the C library pieces the two functions use: NUL-terminated
  strings, the capacity of an additively growing buffer, and `realloc`.
- `line_reader.dfy` (module `LineReader`) holds `LinePrefix`, the line a read must return, and
  `ReadLine`, the imperative loop proved against it.
- `tokenizer.dfy` (module `Tokenizer`) holds `Tokens`, the list of maximal non-delimiter runs,
  and its properties. It also holds `Strtok`, which models `strtok` explicitly, and `SplitLine`,
  the imperative loop proved to produce exactly `Tokens` of the line.

In the model:

- Standard input is a `seq<char>`, and its end stands for EOF. `ReadLine` also returns the
  input it left unread.
- A `char *` into the line is a `Ptr`: either `Null` or `At(i)`, meaning a pointer to `line[i]`.
  The token array is an `array<Ptr>`.
- `strtok` keeps the position where the next call resumes in a hidden static variable. Here that
  position is an explicit argument (`save`) and result (`next`). The first call passes 0, which
  plays the role of `strtok(line, …)`; later calls pass the last result, which plays the role
  of `strtok(NULL, …)`.

## Model

| member | source | states |
|---|---|---|
| LibC.NulIndex | shell.c:42 | where the C string ends: the index of the first NUL, such as the terminator stored at shell.c:42 and the one strtok stops at, with no NUL before it, or the length when there is none |
| LibC.CString | shell.c:42 | the C string a pointer denotes is the NUL-free prefix that stops at the first NUL or at the end |
| LibC.CStringOfTerminated | shell.c:42 | characters stored from some index on, NUL-terminated and NUL-free, read back as exactly that C string |
| LibC.Capacity | shell.c:50-51 | a buffer that starts at `step` cells and grows by `step` when full has a multiple of `step` cells, between n+1 and n+step, while n are in use: the least multiple of `step` above n |
| LibC.CapacityNext | shell.c:47-52 | storing one more element keeps the capacity, unless the buffer becomes full; then the capacity grows by exactly `step`, so it never shrinks |
| LibC.Realloc | shell.c:52 | realloc gives a fresh block of the requested size that keeps every element of the old block |
| LineReader.LinePrefix | shell.c:39-46 | the returned line is a prefix of the input, holds no newline, and stops at the end of the input or just before its first newline |
| LineReader.LinePrefixUnique | shell.c:39-46 | those three facts determine the line: no other prefix has them |
| LineReader.ReadBack | shell.c:39-46 | a newline-free line followed by a newline (and anything after it) or by EOF reads back as that line |
| LineReader.EmptyLine | shell.c:41-43 | the line is empty exactly when EOF or a newline comes first |
| LineReader.ReadLine | shell.c:26-59 | the buffer holds the line before the first newline, followed by a NUL, so its C string is that line on NUL-free input; its size is the least multiple of 1024 above the line's length, so the terminator's slot is in bounds; the unread input is what follows the newline, or nothing at EOF |
| Tokenizer.Word | shell.c:93 | the token a strtok call cuts is the longest delimiter-free prefix, ending at the end of the string or at a delimiter |
| Tokenizer.Tokens | shell.c:78-94 | the list lsh_split_line returns: the maximal runs of non-delimiter characters, left to right; every token is non-empty and contains no delimiter |
| Tokenizer.WordUnique | shell.c:93 | any delimiter-free prefix followed by the end or by a delimiter is that token |
| Tokenizer.TokensAfterDelims | shell.c:78 | leading delimiters do not change the tokens |
| Tokenizer.TokensWordFirst | shell.c:78 | a word followed by the end or by a delimiter is the first token, and the rest follow |
| Tokenizer.TokensEmptyIff | shell.c:78-79 | there are no tokens exactly when the line is empty or holds only delimiters |
| Tokenizer.TokensConcat | shell.c:78-94 | written together, the tokens are the line's non-delimiter characters in order: only delimiters are dropped |
| Tokenizer.TokenCharsFromLine | shell.c:80 | every character of every token comes from the line |
| Tokenizer.TokensOfJoin | shell.c:78-94 | words joined by single spaces split back into exactly those words |
| Tokenizer.TokensOfLayout | shell.c:78-94 | words separated by delimiter runs of any length and mix, with optional leading and trailing runs, split back into exactly those words, so no empty token appears |
| Tokenizer.TokensExample | shell.c:78-94 | `"ls -la /tmp"` splits into `ls`, `-la`, `/tmp` |
| Tokenizer.TokensCollapseExample | shell.c:78-94 | `"  a   b\t c "` splits into `a`, `b`, `c` |
| Tokenizer.TokensBlankExample | shell.c:78-79 | a line of space, tab, CR, LF and BEL, the whole delimiter set, has no token |
| Tokenizer.SkipDelims | shell.c:78 | strtok's first scan: the first index at or after the start that is not a delimiter, with only delimiters before it |
| Tokenizer.FindDelim | shell.c:93 | strtok's second scan: the first delimiter at or after the token's start, or the terminating NUL, with only non-delimiters before it |
| Tokenizer.StrtokNone | shell.c:93 | when only delimiters are left, strtok returns NULL and changes nothing |
| Tokenizer.StrtokLast | shell.c:93 | a token that runs to the NUL is returned without changing the line, and the next call resumes at the NUL |
| Tokenizer.StrtokCut | shell.c:93 | a token ended by a delimiter is returned; that delimiter becomes NUL, and the next call resumes just after it |
| Tokenizer.Strtok | shell.c:78 | one strtok call returns NULL exactly when no token is left, and then leaves the line unchanged. Otherwise it returns a pointer to the first remaining token, which now reads back NUL-terminated. The tokens after the resume point are the remaining ones. The only write is a NUL over the delimiter right after the token |
| Tokenizer.SplittingStep | shell.c:79-94 | one strtok call keeps the loop state: the stored pointers record the first tokens in order, the tokens from the resume point are the rest, and the line changed only by permitted NULs |
| Tokenizer.SplittingDone | shell.c:94-97 | once strtok returns NULL, the stored pointers followed by NULL are the complete argument vector, in increasing order |
| Tokenizer.SplitResultWords | shell.c:80 | every stored pointer points at a non-delimiter character and starts a non-empty token free of delimiters |
| Tokenizer.SplitResultEmpty | shell.c:96 | the first slot is the NULL sentinel exactly when the line is empty or holds only delimiters |
| Tokenizer.PushToken | shell.c:80-91 | the store is in bounds; the array keeps earlier pointers plus the new one, and grows by 64 slots exactly when it becomes full |
| Tokenizer.Advance | shell.c:79-94 | one loop iteration stores the pending token, calls strtok, keeps the loop state, and strictly decreases the work left |
| Tokenizer.Finish | shell.c:96-97 | after strtok returns NULL, the sentinel store is in bounds, the number of stored pointers is the token count of the line, and the array is the complete argument vector |
| Tokenizer.SplitLine | shell.c:66-98 | the result is a fresh array with one pointer per token of the line's C string, followed by NULL. Each pointer lies inside the line's C string and reads back as its token in the modified line, and each lies beyond the terminator of the one before, so the pointers increase strictly and the tokens are disjoint and in order. The line changes only where a delimiter directly after a token, before the terminating NUL, became NUL, so non-delimiters and everything from the terminator on never change. The array has the least multiple of 64 slots above the token count, so the sentinel's slot is in bounds |

## Left out

- Allocation failure: the `malloc`/`realloc` failure branches, which print an error and exit the process (shell.c:33-36, 53-56, 73-76, 87-90). Allocation always succeeds in the model.
- `lsh_loop` is not modelled. It is prompt output plus calls to the reader, the splitter and `lsh_execute`. Its call to the splitter is spelled `lsh_splint_line`, which `shell.h` does not declare.
- `lsh_execute`, `lsh_launch`, `lsh_cd`, `lsh_help` and `lsh_exit` are not modelled: `shell.h` declares them, but their bodies are not part of this model. `main` is not part of this model either.
- Real `getchar`, `printf` and the terminal. Input is a finite `seq<char>`.
- LineReader.ReadLine: the C string read from the buffer equals the line only when the input contains no NUL. A NUL in the input would cut the C string short in C as well, so the contract states the equality under that condition.
- Tokenizer.SplitLine: it takes the line as an array holding at least one NUL and tokenizes the C string before the first NUL, as `strtok` does. It does not model a line without a terminator, which C would read out of bounds.
- `int` overflow of `bufsize` and `position` is not modelled, because the model's counters are unbounded.
- Only the delimiter set `LSH_TOK_DELIM` is modelled, not `strtok` for arbitrary delimiter sets. `strtok`'s hidden static pointer is an explicit argument and result, so calls on unrelated strings cannot interleave.
- Growth policy: buffers grow additively by a fixed step, as the code does (shell.c:50-51, 84-86). Geometric growth, which a rewrite might prefer, is not modelled.
