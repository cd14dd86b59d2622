/** The compile-time constants the shell declares in shell.h. */
module ShellConfig {

  /** LSH_RL_BUFSIZE: initial size of the line buffer and the amount it grows by. */
  const ReadLineBufSize: nat := 1024

  /** LSH_TOK_BUFSIZE: initial number of token slots and the amount they grow by. */
  const TokenBufSize: nat := 64

  /** The bell character, written '\a' in C. */
  const Bel: char := 7 as char

  /** LSH_TOK_DELIM: space, tab, carriage return, newline and bell separate tokens. */
  predicate IsDelim(c: char)
  {
    c == ' ' || c == '\t' || c == '\r' || c == '\n' || c == Bel
  }
}
