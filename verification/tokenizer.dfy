/** lsh_split_line: split a NUL-terminated line in place, strtok-style, into a growable,
    NULL-terminated array of pointers into the line. */
module Tokenizer {
  import opened LibC
  import opened ShellConfig

  /** A `char *`: NULL, or a pointer to line[index]. */
  datatype Ptr = Null | At(index: nat)

  /** A token: a non-empty run of non-delimiter characters. */
  predicate IsWord(t: seq<char>)
  {
    t != [] && forall i :: 0 <= i < |t| ==> !IsDelim(t[i])
  }

  /** The longest prefix of `s` that contains no delimiter. */
  function Word(s: seq<char>): (w: seq<char>)
    ensures |w| <= |s| && w == s[..|w|]
    ensures forall i :: 0 <= i < |w| ==> !IsDelim(w[i])
    ensures |w| == |s| || IsDelim(s[|w|])
  {
    if s == [] || IsDelim(s[0]) then [] else [s[0]] + Word(s[1..])
  }

  /** The tokens of `s`: its maximal runs of non-delimiter characters, left to right.
      Every token is non-empty and holds no delimiter. */
  function Tokens(s: seq<char>): (ts: seq<seq<char>>)
    ensures forall k :: 0 <= k < |ts| ==> IsWord(ts[k])
    decreases |s|
  {
    if s == [] then []
    else if IsDelim(s[0]) then Tokens(s[1..])
    else
      var w := Word(s);
      [w] + Tokens(s[|w|..])
  }

  /** The characters of `s` that are not delimiters, in order. */
  function RemoveDelims(s: seq<char>): (r: seq<char>)
  {
    if s == [] then [] else (if IsDelim(s[0]) then [] else [s[0]]) + RemoveDelims(s[1..])
  }

  /** The tokens written one after another. */
  function Concat(ts: seq<seq<char>>): (r: seq<char>)
  {
    if ts == [] then [] else ts[0] + Concat(ts[1..])
  }

  /** The words separated by single spaces. */
  function Join(ws: seq<seq<char>>): (r: seq<char>)
  {
    if ws == [] then []
    else if |ws| == 1 then ws[0]
    else ws[0] + [' '] + Join(ws[1..])
  }

  /** Any prefix that is a maximal delimiter-free run is Word's result. */
  lemma {:induction false} WordUnique(s: seq<char>, w: seq<char>)
    requires |w| <= |s| && w == s[..|w|]
    requires forall i :: 0 <= i < |w| ==> !IsDelim(w[i])
    requires |w| == |s| || IsDelim(s[|w|])
    ensures Word(s) == w
    decreases |w|
  {
    if w != [] {
      WordUnique(s[1..], w[1..]);
    }
  }

  /** Leading delimiters do not change the tokens. */
  lemma {:induction false} TokensAfterDelims(delims: seq<char>, s: seq<char>)
    requires forall i :: 0 <= i < |delims| ==> IsDelim(delims[i])
    ensures Tokens(delims + s) == Tokens(s)
    decreases |delims|
  {
    if delims == [] {
      assert delims + s == s;
    } else {
      TokensAfterDelims(delims[1..], s);
      assert (delims + s)[1..] == delims[1..] + s;
    }
  }

  /** A word followed by the end of the string or by a delimiter is the first token. */
  lemma TokensWordFirst(w: seq<char>, rest: seq<char>)
    requires IsWord(w) && (rest == [] || IsDelim(rest[0]))
    ensures Tokens(w + rest) == [w] + Tokens(rest)
  {
    var s := w + rest;
    assert s[..|w|] == w;
    WordUnique(s, w);
    assert s[|w|..] == rest;
  }

  /** No tokens exactly when every character is a delimiter (the empty line included). */
  lemma {:induction false} TokensEmptyIff(s: seq<char>)
    ensures Tokens(s) == [] <==> forall i :: 0 <= i < |s| ==> IsDelim(s[i])
    decreases |s|
  {
    if s != [] {
      TokensEmptyIff(s[1..]);
      if IsDelim(s[0]) {
        forall i | 0 < i < |s| ensures s[i] == s[1..][i - 1] { }
      }
    }
  }

  /** Removing delimiters distributes over concatenation. */
  lemma {:induction false} RemoveDelimsAppend(a: seq<char>, b: seq<char>)
    ensures RemoveDelims(a + b) == RemoveDelims(a) + RemoveDelims(b)
    decreases |a|
  {
    if a == [] {
      assert a + b == b;
    } else {
      var head := if IsDelim(a[0]) then [] else [a[0]];
      assert (a + b)[0] == a[0] && (a + b)[1..] == a[1..] + b;
      RemoveDelimsAppend(a[1..], b);
      assert RemoveDelims(a + b) == head + (RemoveDelims(a[1..]) + RemoveDelims(b));
      assert RemoveDelims(a) == head + RemoveDelims(a[1..]);
    }
  }

  /** A delimiter-free string is unchanged by removing delimiters. */
  lemma {:induction false} RemoveDelimsWord(w: seq<char>)
    requires forall i :: 0 <= i < |w| ==> !IsDelim(w[i])
    ensures RemoveDelims(w) == w
    decreases |w|
  {
    if w != [] {
      RemoveDelimsWord(w[1..]);
    }
  }

  /** Nothing but delimiters is lost: the tokens, written together, are the line's
      non-delimiter characters in their original order. */
  lemma {:induction false} TokensConcat(s: seq<char>)
    ensures Concat(Tokens(s)) == RemoveDelims(s)
    decreases |s|
  {
    if s == [] {
    } else if IsDelim(s[0]) {
      TokensConcat(s[1..]);
    } else {
      var w := Word(s);
      var rest := s[|w|..];
      TokensConcat(rest);
      assert s == w + rest;
      RemoveDelimsAppend(w, rest);
      RemoveDelimsWord(w);
      assert ([w] + Tokens(rest))[1..] == Tokens(rest);
    }
  }

  /** Every character of every token is a character of the line. */
  lemma {:induction false} TokenCharsFromLine(s: seq<char>, k: nat, i: nat)
    requires k < |Tokens(s)| && i < |Tokens(s)[k]|
    ensures Tokens(s)[k][i] in s
    decreases |s|
  {
    if IsDelim(s[0]) {
      TokenCharsFromLine(s[1..], k, i);
    } else if k > 0 {
      var w := Word(s);
      assert Tokens(s)[k] == Tokens(s[|w|..])[k - 1];
      TokenCharsFromLine(s[|w|..], k - 1, i);
    } else {
      assert Tokens(s)[k][i] == s[i];
    }
  }

  /** A word on its own is one token. */
  lemma TokensOfWord(w: seq<char>)
    requires IsWord(w)
    ensures Tokens(w) == [w]
  {
    TokensWordFirst(w, []);
    assert w + [] == w;
  }

  /** A word followed by a space contributes itself, then the tokens of what follows. */
  lemma TokensCons(w: seq<char>, rest: seq<char>)
    requires IsWord(w)
    ensures Tokens(w + [' '] + rest) == [w] + Tokens(rest)
  {
    TokensWordFirst(w, [' '] + rest);
    assert w + [' '] + rest == w + ([' '] + rest);
    assert ([' '] + rest)[1..] == rest;
  }

  /** Joining tokens with single spaces and tokenizing gives the tokens back. */
  lemma {:induction false} TokensOfJoin(ws: seq<seq<char>>)
    requires forall k :: 0 <= k < |ws| ==> IsWord(ws[k])
    ensures Tokens(Join(ws)) == ws
    decreases |ws|
  {
    if |ws| == 1 {
      TokensOfWord(ws[0]);
    } else if |ws| > 1 {
      TokensCons(ws[0], Join(ws[1..]));
      TokensOfJoin(ws[1..]);
    }
  }

  /** A command with an option and a path splits into its three words. */
  lemma TokensExample()
    ensures Tokens("ls -la /tmp") == ["ls", "-la", "/tmp"]
  {
    var ws := ["ls", "-la", "/tmp"];
    assert forall k :: 0 <= k < |ws| ==> IsWord(ws[k]);
    assert Join(ws) == "ls -la /tmp";
    TokensOfJoin(ws);
  }

  /** A line laid out as gaps[0] + ws[0] + gaps[1] + … + ws[|ws|-1] + gaps[|ws|]. */
  function Layout(ws: seq<seq<char>>, gaps: seq<seq<char>>): (line: seq<char>)
    requires |gaps| == |ws| + 1
    decreases |ws|
  {
    if ws == [] then gaps[0] else gaps[0] + ws[0] + Layout(ws[1..], gaps[1..])
  }

  /** Delimiter runs of any length and mix collapse: words laid out with delimiter gaps, the
      inner ones non-empty and the outer ones possibly empty, tokenize to exactly the words. */
  lemma {:induction false} TokensOfLayout(ws: seq<seq<char>>, gaps: seq<seq<char>>)
    requires |gaps| == |ws| + 1
    requires forall k :: 0 <= k < |ws| ==> IsWord(ws[k])
    requires forall k, i :: 0 <= k < |gaps| && 0 <= i < |gaps[k]| ==> IsDelim(gaps[k][i])
    requires forall k :: 0 < k < |ws| ==> gaps[k] != []
    ensures Tokens(Layout(ws, gaps)) == ws
    decreases |ws|
  {
    if ws == [] {
      TokensAfterDelims(gaps[0], []);
      assert gaps[0] + [] == gaps[0];
    } else {
      var rest := Layout(ws[1..], gaps[1..]);
      assert rest == [] || rest[0] == gaps[1][0] by {
        if ws[1..] != [] {
          assert rest == gaps[1] + ws[1] + Layout(ws[2..], gaps[2..]);
        }
      }
      assert gaps[0] + ws[0] + rest == gaps[0] + (ws[0] + rest);
      TokensAfterDelims(gaps[0], ws[0] + rest);
      TokensWordFirst(ws[0], rest);
      TokensOfLayout(ws[1..], gaps[1..]);
    }
  }

  /** Runs of mixed delimiters collapse and leading or trailing ones vanish: no empty token. */
  lemma TokensCollapseExample()
    ensures Tokens("  a   b\t c ") == ["a", "b", "c"]
  {
    var ws := ["a", "b", "c"];
    var gaps := ["  ", "   ", "\t ", " "];
    assert forall k :: 0 <= k < |ws| ==> IsWord(ws[k]);
    assert Layout(ws, gaps) == "  a   b\t c ";
    TokensOfLayout(ws, gaps);
  }

  /** A line of delimiters only, one of each, has no token. */
  lemma TokensBlankExample()
    ensures Tokens([' ', '\t', '\r', '\n', Bel]) == []
  {
    TokensEmptyIff([' ', '\t', '\r', '\n', Bel]);
  }

  /** strtok may overwrite position i of `before` with NUL only when it holds a
      delimiter that directly follows a non-delimiter. */
  ghost predicate SplitAt(before: seq<char>, after: seq<char>, i: int)
    requires |before| == |after|
  {
    0 < i < |before| && IsDelim(before[i]) && !IsDelim(before[i - 1]) && after[i] == NUL
  }

  /** `after` is `before` with at most the overwrites SplitAt allows, all strictly between
      `lo` and `hi`. */
  ghost predicate OnlySplits(before: seq<char>, after: seq<char>, lo: int, hi: int)
  {
    |before| == |after|
    && forall i {:trigger after[i]} :: 0 <= i < |before| ==>
      after[i] == before[i] || (lo < i < hi && SplitAt(before, after, i))
  }

  /** Overwrites below `from`, then overwrites from `from` on of a part that was still
      untouched, are together overwrites of the original. */
  lemma OnlySplitsCompose(orig: seq<char>, mid: seq<char>, cur: seq<char>, from: nat, next: int)
    requires OnlySplits(orig, mid, 0, from) && from <= |orig|
    requires OnlySplits(mid, cur, from, next) && from <= next
    ensures OnlySplits(orig, cur, 0, next)
  {
    forall i | 0 <= i < |orig|
      ensures cur[i] == orig[i] || (0 < i < next && SplitAt(orig, cur, i))
    {
      if cur[i] != mid[i] {
        assert mid[i] == orig[i] && mid[i - 1] == orig[i - 1];
      }
    }
  }

  /** The first |ptrs| tokens `ws` are recorded: each pointer is non-NULL and its token sits
      NUL-terminated in `line`, ending at or before `limit`; each pointer lies beyond the
      terminator of the one before, so the tokens are disjoint and in order. */
  ghost predicate Recorded(line: seq<char>, ptrs: seq<Ptr>, ws: seq<seq<char>>, limit: nat)
  {
    |ptrs| <= |ws|
    && (forall i :: 0 <= i < |ptrs| ==>
      ptrs[i].At? && ptrs[i].index + |ws[i]| <= limit && Terminated(line, ptrs[i].index, ws[i]))
    && (forall i :: 0 < i < |ptrs| ==> ptrs[i - 1].index + |ws[i - 1]| < ptrs[i].index)
  }

  /** Recorded tokens stay recorded while the line changes only beyond `limit`. */
  lemma RecordedKept(before: seq<char>, after: seq<char>, ptrs: seq<Ptr>, ws: seq<seq<char>>,
                     limit: nat, limit': nat)
    requires Recorded(before, ptrs, ws, limit) && limit <= limit' && limit < |before| == |after|
    requires forall i :: 0 <= i <= limit ==> after[i] == before[i]
    ensures Recorded(after, ptrs, ws, limit')
  {
  }

  /** Recording the next token, which starts at or after `limit` with a non-NUL character,
      keeps the pointers recorded, disjoint and in order: the previous token's terminator lies
      before `limit` and is NUL, so the new token starts strictly beyond it. */
  lemma RecordedPush(line: seq<char>, ptrs: seq<Ptr>, ws: seq<seq<char>>, limit: nat,
                     token: Ptr, limit': nat)
    requires Recorded(line, ptrs, ws, limit) && |ptrs| < |ws| && ws[|ptrs|] != []
    requires token.At? && limit <= token.index && token.index + |ws[|ptrs|]| <= limit'
    requires Terminated(line, token.index, ws[|ptrs|]) && ws[|ptrs|][0] != NUL
    ensures Recorded(line, ptrs + [token], ws, limit')
  {
    var ptrs' := ptrs + [token];
    forall i | 0 <= i < |ptrs'|
      ensures ptrs'[i].At? && ptrs'[i].index + |ws[i]| <= limit'
        && Terminated(line, ptrs'[i].index, ws[i])
    {
      if i < |ptrs| {
        assert ptrs'[i] == ptrs[i];
      }
    }
    if ptrs != [] {
      assert line[token.index + 0] == ws[|ptrs|][0];
    }
    assert forall i :: 0 < i < |ptrs'| ==> ptrs'[i - 1].index + |ws[i - 1]| < ptrs'[i].index by {
      forall i | 0 < i < |ptrs'| ensures ptrs'[i - 1].index + |ws[i - 1]| < ptrs'[i].index {
        if i < |ptrs| {
          assert ptrs'[i - 1] == ptrs[i - 1] && ptrs'[i] == ptrs[i];
        }
      }
    }
  }

  /** strspn(line + j, LSH_TOK_DELIM): the first index from `j` on that does not hold a
      delimiter; the terminating NUL at `end` is not one. */
  method SkipDelims(line: array<char>, j: nat, ghost end: nat) returns (k: nat)
    requires j <= end < line.Length && line[end] == NUL
    requires forall i :: j <= i < end ==> line[i] != NUL
    ensures j <= k <= end
    ensures forall i :: j <= i < k ==> IsDelim(line[i])
    ensures k == end || !IsDelim(line[k])
  {
    k := j;
    while line[k] != NUL && IsDelim(line[k])
      decreases end - k
      invariant j <= k <= end
      invariant forall i :: j <= i < k ==> IsDelim(line[i])
    {
      k := k + 1;
    }
  }

  /** strpbrk(line + j, LSH_TOK_DELIM), with the end of the string for NULL: the first index
      from `j` on that holds a delimiter, or `end`. */
  method FindDelim(line: array<char>, j: nat, ghost end: nat) returns (k: nat)
    requires j <= end < line.Length && line[end] == NUL
    requires forall i :: j <= i < end ==> line[i] != NUL
    ensures j <= k <= end
    ensures forall i :: j <= i < k ==> !IsDelim(line[i])
    ensures k == end || IsDelim(line[k])
  {
    k := j;
    while line[k] != NUL && !IsDelim(line[k])
      decreases end - k
      invariant j <= k <= end
      invariant forall i :: j <= i < k ==> !IsDelim(line[i])
    {
      k := k + 1;
    }
  }

  /** One strtok call resuming at `save` in a string whose NUL is at `end`: it turns the
      line `before` into `after` and returns `token` and the new saved index `next`. It
      returns NULL exactly when only delimiters are left, and then changes nothing; otherwise
      it returns a pointer to the first token, which reads back NUL-terminated in `after`,
      and the tokens from `next` on are the remaining ones. The line changes only by
      overwrites SplitAt allows, after `save` and before `next`. */
  ghost predicate StrtokStep(before: seq<char>, after: seq<char>, save: nat, end: nat,
                             token: Ptr, next: nat)
  {
    save <= next <= end < |before| == |after| && after[end] == NUL
    && (forall i :: next <= i < end ==> after[i] != NUL)
    && OnlySplits(before, after, save, next)
    && (token.Null? <==> Tokens(before[save..end]) == [])
    && (token.Null? ==> next == end && after == before)
    && (token.At? ==>
      var ts := Tokens(before[save..end]);
      save < next && save <= token.index && token.index + |ts[0]| <= next
      && Terminated(after, token.index, ts[0])
      && ts[1..] == Tokens(after[next..end]))
  }

  /** A strtok call that finds only delimiters before the NUL at `end` returns NULL. */
  lemma StrtokNone(line: seq<char>, save: nat, end: nat)
    requires save <= end < |line| && line[end] == NUL
    requires forall i :: save <= i < end ==> line[i] != NUL
    requires forall i :: save <= i < end ==> IsDelim(line[i])
    ensures StrtokStep(line, line, save, end, Null, end)
  {
    TokensAfterDelims(line[save..end], []);
    assert line[save..end] + [] == line[save..end];
    assert OnlySplits(line, line, save, end);
  }

  /** A strtok call that skips delimiters up to `j` and finds a token running to the NUL
      at `end` returns a pointer to `j` and leaves the line and the saved index at `end`. */
  lemma StrtokLast(line: seq<char>, save: nat, end: nat, j: nat)
    requires save <= j < end < |line| && line[end] == NUL
    requires forall i :: save <= i < end ==> line[i] != NUL
    requires forall i :: save <= i < j ==> IsDelim(line[i])
    requires forall i :: j <= i < end ==> !IsDelim(line[i])
    ensures StrtokStep(line, line, save, end, At(j), end)
  {
    var w := line[j..end];
    assert line[save..end] == line[save..j] + w;
    TokensAfterDelims(line[save..j], w);
    TokensOfWord(w);
    assert OnlySplits(line, line, save, end);
    assert Terminated(line, j, w);
  }

  /** A strtok call that skips delimiters up to `j` and finds a token running to the
      delimiter at `k` returns a pointer to `j`, overwrites that delimiter with NUL and moves
      the saved index past it. */
  lemma StrtokCut(line: seq<char>, after: seq<char>, save: nat, end: nat, j: nat, k: nat)
    requires save <= j < k < end < |line| && line[end] == NUL
    requires forall i :: save <= i < end ==> line[i] != NUL
    requires forall i :: save <= i < j ==> IsDelim(line[i])
    requires forall i :: j <= i < k ==> !IsDelim(line[i])
    requires IsDelim(line[k]) && after == line[k := NUL]
    ensures StrtokStep(line, after, save, end, At(j), k + 1)
  {
    var w := line[j..k];
    var rest := line[k..end];
    assert line[save..end] == line[save..j] + (w + rest);
    TokensAfterDelims(line[save..j], w + rest);
    TokensWordFirst(w, rest);
    assert rest[1..] == line[k + 1..end];
    assert after[k + 1..end] == line[k + 1..end];
    assert after[k + 1..] == line[k + 1..];
    assert after[j..k] == w;
    assert Terminated(after, j, w);
    assert SplitAt(line, after, k);
  }

  /** strtok(…, LSH_TOK_DELIM) resuming at line[save], the string running up to the NUL
      at line[end]. Its saved pointer is an explicit argument and result (`next`). Returns
      NULL when only delimiters are left; otherwise the first token, NUL-terminated in place. */
  method Strtok(line: array<char>, save: nat, ghost end: nat) returns (token: Ptr, next: nat)
    requires save <= end < line.Length && line[end] == NUL
    requires forall i :: save <= i < end ==> line[i] != NUL
    modifies line
    ensures StrtokStep(old(line[..]), line[..], save, end, token, next)
  {
    var j := SkipDelims(line, save, end);
    if line[j] == NUL {
      StrtokNone(line[..], save, end);
      token, next := Null, j;
    } else {
      var k := FindDelim(line, j, end);
      token := At(j);
      if line[k] == NUL {
        StrtokLast(line[..], save, end, j);
        next := k;
      } else {
        ghost var before := line[..];
        line[k] := NUL;
        StrtokCut(before, line[..], save, end, j, k);
        next := k + 1;
      }
    }
  }

  /** No token holds a NUL when the line holds none. */
  lemma TokensNulFree(s: seq<char>, k: nat)
    requires NUL !in s && k < |Tokens(s)|
    ensures NUL !in Tokens(s)[k]
  {
    forall i | 0 <= i < |Tokens(s)[k]| ensures Tokens(s)[k][i] != NUL {
      TokenCharsFromLine(s, k, i);
    }
  }

  /** The token strtok just returned, as the list of pointers still to be stored. */
  function Pending(token: Ptr): (r: seq<Ptr>)
  {
    if token.At? then [token] else []
  }

  /** Loop state of lsh_split_line: the C string of `orig` ends at `n`; the line `cur`
      differs from `orig` only by overwrites before `save`; the pointers `ptrs` record the
      first tokens of the line, and the tokens from `save` on are the remaining ones. */
  ghost predicate Splitting(orig: seq<char>, n: nat, cur: seq<char>, ptrs: seq<Ptr>, save: nat)
  {
    save <= n < |orig| == |cur| && orig[n] == NUL && NUL !in orig[..n]
    && cur[n] == NUL && (forall i :: save <= i < n ==> cur[i] != NUL)
    && OnlySplits(orig, cur, 0, save)
    && var all := Tokens(orig[..n]);
    |ptrs| <= |all| && all[|ptrs|..] == Tokens(cur[save..n])
    && Recorded(cur, ptrs, all, save)
  }

  /** One strtok call, described by what Strtok ensures, keeps the loop state. */
  lemma SplittingStep(orig: seq<char>, n: nat, before: seq<char>, after: seq<char>,
                      ptrs: seq<Ptr>, save: nat, token: Ptr, next: nat)
    requires Splitting(orig, n, before, ptrs, save)
    requires StrtokStep(before, after, save, n, token, next)
    ensures Splitting(orig, n, after, ptrs + Pending(token), next)
  {
    OnlySplitsCompose(orig, before, after, save, next);
    var all := Tokens(orig[..n]);
    if token.At? {
      RecordedKept(before, after, ptrs, all, save, save);
      var ts := Tokens(before[save..n]);
      assert all[|ptrs|] == ts[0] && all[|ptrs| + 1..] == ts[1..];
      assert NUL !in before[save..n] by {
        assert forall i :: 0 <= i < n - save ==> before[save..n][i] == before[save + i];
      }
      TokensNulFree(before[save..n], 0);
      RecordedPush(after, ptrs, all, save, token, next);
    } else {
      RecordedKept(before, after, ptrs, all, save, next);
      assert after[next..n] == [];
      assert ptrs + Pending(token) == ptrs;
    }
  }

  /** What lsh_split_line leaves behind: `argv` starts with one pointer per token of the C
      string in `orig`, followed by the NULL sentinel; each pointer lies inside that C string,
      beyond the previous token's terminator, and reads back, as a C string in the modified
      line `cur`, its token; and `cur` differs from `orig` only by NULs written over delimiters
      that end a token. */
  ghost predicate SplitResult(orig: seq<char>, cur: seq<char>, argv: seq<Ptr>)
  {
    var words := Tokens(CString(orig));
    |words| < |argv| && argv[|words|] == Null
    && OnlySplits(orig, cur, 0, NulIndex(orig))
    && (forall i :: 0 <= i < |words| ==>
      argv[i].At? && argv[i].index + |words[i]| <= NulIndex(orig)
      && Terminated(cur, argv[i].index, words[i])
      && CString(cur[argv[i].index..]) == words[i])
    && (forall i :: 0 < i < |words| ==> argv[i - 1].index + |words[i - 1]| < argv[i].index)
  }

  /** When no token is left, the recorded pointers followed by NULL form the argument vector. */
  lemma SplittingDone(orig: seq<char>, n: nat, cur: seq<char>, ptrs: seq<Ptr>, argv: seq<Ptr>)
    requires Splitting(orig, n, cur, ptrs, n)
    requires |ptrs| < |argv| && argv[..|ptrs|] == ptrs && argv[|ptrs|] == Null
    ensures SplitResult(orig, cur, argv)
  {
    var all := Tokens(orig[..n]);
    assert CString(orig) == orig[..n];
    assert cur[n..n] == [];
    forall i | 0 <= i < |all|
      ensures argv[i].At? && argv[i].index + |all[i]| <= n
      ensures Terminated(cur, argv[i].index, all[i])
      ensures CString(cur[argv[i].index..]) == all[i]
    {
      assert argv[i] == ptrs[i];
      TokensNulFree(orig[..n], i);
      CStringOfTerminated(cur, ptrs[i].index, all[i]);
    }
    assert forall i :: 0 <= i < |ptrs| ==> argv[i] == ptrs[i];
  }

  /** Each stored pointer starts a non-empty token free of delimiters: it points at a
      non-delimiter character of the modified line. */
  lemma SplitResultWords(orig: seq<char>, cur: seq<char>, argv: seq<Ptr>, i: nat)
    requires SplitResult(orig, cur, argv) && i < |Tokens(CString(orig))|
    ensures IsWord(Tokens(CString(orig))[i])
    ensures argv[i].At? && argv[i].index < |cur| && !IsDelim(cur[argv[i].index])
  {
    assert cur[argv[i].index + 0] == Tokens(CString(orig))[i][0];
  }

  /** The argument vector starts with the NULL sentinel exactly when the line is empty or
      holds only delimiters. */
  lemma SplitResultEmpty(orig: seq<char>, cur: seq<char>, argv: seq<Ptr>)
    requires SplitResult(orig, cur, argv)
    ensures argv[0] == Null <==> forall i :: 0 <= i < |CString(orig)| ==> IsDelim(CString(orig)[i])
  {
    TokensEmptyIff(CString(orig));
  }

  /** Stores `token` in tokens[position]; once the next position reaches the capacity, grows
      the array by TokenBufSize slots with realloc. Returns the array now in use. */
  method PushToken(tokens: array<Ptr>, position: nat, token: Ptr) returns (grown: array<Ptr>)
    requires position < tokens.Length == Capacity(position, TokenBufSize)
    modifies tokens
    ensures grown == tokens || fresh(grown)
    ensures grown.Length == Capacity(position + 1, TokenBufSize)
    ensures grown[..position + 1] == old(tokens[..position]) + [token]
  {
    tokens[position] := token;
    CapacityNext(position, TokenBufSize);
    grown := tokens;
    if position + 1 >= tokens.Length {
      grown := Realloc(tokens, tokens.Length + TokenBufSize);
    }
  }

  /** One round of lsh_split_line's loop: stores the token strtok last returned (growing the
      array when it fills up) and asks strtok for the next one. The loop state is kept, with
      the stored token moved from the pending list into the array. */
  method Advance(line: array<char>, tokens: array<Ptr>, position: nat, token: Ptr, save: nat,
                 ghost orig: seq<char>, ghost n: nat)
    returns (grown: array<Ptr>, next: Ptr, resume: nat)
    requires token.At? && position < tokens.Length == Capacity(position, TokenBufSize)
    requires Splitting(orig, n, line[..], tokens[..position] + [token], save)
    modifies line, tokens
    ensures grown == tokens || fresh(grown)
    ensures position + 1 < grown.Length == Capacity(position + 1, TokenBufSize)
    ensures Splitting(orig, n, line[..], grown[..position + 1] + Pending(next), resume)
    ensures next.Null? ==> resume == n
    ensures n - resume + |Pending(next)| < n - save + 1
  {
    grown := PushToken(tokens, position, token);
    ghost var before := line[..];
    next, resume := Strtok(line, save, n);
    SplittingStep(orig, n, before, line[..], grown[..position + 1], save, next, resume);
  }

  /** The end of lsh_split_line: once strtok has returned NULL, stores the NULL sentinel after
      the recorded pointers, which then form the argument vector of the whole line. */
  method Finish(line: array<char>, tokens: array<Ptr>, position: nat, token: Ptr,
                ghost orig: seq<char>, ghost n: nat)
    requires token.Null? && position < tokens.Length
    requires Splitting(orig, n, line[..], tokens[..position] + Pending(token), n)
    modifies tokens
    ensures position == |Tokens(CString(orig))|
    ensures SplitResult(orig, line[..], tokens[..])
  {
    ghost var ptrs := tokens[..position];
    assert ptrs + Pending(token) == ptrs;
    tokens[position] := Null;
    SplittingDone(orig, n, line[..], ptrs, tokens[..]);
  }

  /** lsh_split_line on the C string held by `line`: the result is a NULL-terminated array of
      pointers into `line`, one per token, in order, each reading back as that token; the line
      is changed only where a delimiter directly after a token became NUL; and the array has
      the least multiple of TokenBufSize slots above the token count. */
  method SplitLine(line: array<char>) returns (tokens: array<Ptr>)
    requires NUL in line[..]
    modifies line
    ensures fresh(tokens)
    ensures tokens.Length == Capacity(|Tokens(old(CString(line[..])))|, TokenBufSize)
    ensures SplitResult(old(line[..]), line[..], tokens[..])
  {
    ghost var orig := line[..];
    ghost var n := NulIndex(orig);
    var position := 0;
    tokens := new Ptr[TokenBufSize];
    var token, save := Strtok(line, 0, n);
    assert Splitting(orig, n, orig, [], 0) by {
      assert OnlySplits(orig, orig, 0, 0);
    }
    SplittingStep(orig, n, orig, line[..], [], 0, token, save);
    while token != Null
      invariant fresh(tokens)
      invariant position < tokens.Length == Capacity(position, TokenBufSize)
      invariant Splitting(orig, n, line[..], tokens[..position] + Pending(token), save)
      invariant token.Null? ==> save == n
      decreases n - save + |Pending(token)|
    {
      tokens, token, save := Advance(line, tokens, position, token, save, orig, n);
      position := position + 1;
    }
    Finish(line, tokens, position, token, orig, n);
  }
}
