/**
  Character-level helpers of the rule-file parser (parseMakeFile.c): the C
  locale's `isspace`, C-string truncation, `countColons`, `fixLine`, the
  trimming of command lines, and the two `sscanf` patterns the parser uses
  ("%s : %[^\n]" for a target line and "%s" for each dependency token).
*/
module LineText {

  /** `isspace` in the C locale: space, or one of \t, \n, \v, \f, \r (codes 9 to 13). */
  predicate IsSpace(c: char) {
    c == ' ' || '\t' <= c <= '\r'
  }

  /** `s[i]` read as a C string: past the end sits the terminating NUL. */
  function At(s: string, i: nat): char {
    if i < |s| then s[i] else '\0'
  }

  /** The longest prefix of `s` that does not contain `stop`. */
  function UpTo(s: string, stop: char): (r: string)
    ensures r <= s && stop !in r
    ensures |r| < |s| ==> s[|r|] == stop
  {
    if s == [] || s[0] == stop then [] else [s[0]] + UpTo(s[1..], stop)
  }

  /** A line as the C code sees it: everything before its first NUL byte. */
  function CString(s: string): (r: string)
    ensures r <= s && '\0' !in r
    ensures |r| < |s| ==> s[|r|] == '\0'
  {
    UpTo(s, '\0')
  }

  /** `UpTo` is determined by its contract: the prefix before the first `stop`. */
  lemma {:induction false} UpToIsPrefixBeforeStop(s: string, stop: char, k: nat)
    requires k <= |s| && stop !in s[..k]
    requires k < |s| ==> s[k] == stop
    ensures UpTo(s, stop) == s[..k]
  {
    if k > 0 {
      assert s[0] == s[..k][0];
      assert s[1..][..k - 1] == s[..k][1..];
      UpToIsPrefixBeforeStop(s[1..], stop, k - 1);
    }
  }

  /** countColons (parseMakeFile.c): the number of ':' characters in the line. */
  method CountColons(line: string) returns (colons: nat)
    ensures colons == multiset(line)[':']
  {
    colons := 0;
    var i := 0;
    while i < |line|
      invariant i <= |line|
      invariant colons == multiset(line[..i])[':']
    {
      assert line[..i + 1] == line[..i] + [line[i]];
      if line[i] == ':' {
        colons := colons + 1;
      }
      i := i + 1;
    }
    assert line[..i] == line;
  }

  // ---------------------------------------------------------------------
  // Non-whitespace content of a string

  /** The non-whitespace characters of `s`, in order. */
  function NonSpace(s: string): string {
    if s == [] then [] else (if IsSpace(s[0]) then [] else [s[0]]) + NonSpace(s[1..])
  }

  lemma {:induction false} NonSpaceAppend(a: string, b: string)
    ensures NonSpace(a + b) == NonSpace(a) + NonSpace(b)
  {
    if a == [] {
      assert a + b == b;
    } else {
      assert (a + b)[0] == a[0];
      assert (a + b)[1..] == a[1..] + b;
      NonSpaceAppend(a[1..], b);
      var h := if IsSpace(a[0]) then [] else [a[0]];
      calc {
        NonSpace(a + b);
        h + NonSpace(a[1..] + b);
        h + (NonSpace(a[1..]) + NonSpace(b));
        (h + NonSpace(a[1..])) + NonSpace(b);
      }
    }
  }

  /** A word is its own non-whitespace content. */
  lemma {:induction false} NonSpaceOfWord(s: string)
    ensures NonSpace(Word(s)) == Word(s)
  {
    if s != [] && !IsSpace(s[0]) {
      NonSpaceOfWord(s[1..]);
      assert Word(s) == [s[0]] + Word(s[1..]);
      assert Word(s)[1..] == Word(s[1..]);
    }
  }

  /** A non-whitespace character of `s` survives in `NonSpace(s)`. */
  lemma {:induction false} NonSpaceKeeps(s: string, c: char)
    requires c in s && !IsSpace(c)
    ensures c in NonSpace(s)
  {
    if s[0] != c {
      NonSpaceKeeps(s[1..], c);
    }
  }

  // ---------------------------------------------------------------------
  // Whitespace skipping and words, as `sscanf` and the pointer loops see them

  /** `s` with its leading whitespace dropped. */
  function SkipSpace(s: string): (r: string)
    ensures |r| <= |s|
    ensures r == [] || !IsSpace(r[0])
  {
    if s != [] && IsSpace(s[0]) then SkipSpace(s[1..]) else s
  }

  /** What is left after skipping is a suffix of `s`, and only whitespace was skipped. */
  lemma {:induction false} SkipSpaceSuffix(s: string)
    ensures SkipSpace(s) == s[|s| - |SkipSpace(s)|..]
    ensures forall k :: 0 <= k < |s| - |SkipSpace(s)| ==> IsSpace(s[k])
  {
    if s != [] && IsSpace(s[0]) {
      SkipSpaceSuffix(s[1..]);
      assert s[1..][|s| - 1 - |SkipSpace(s)|..] == s[|s| - |SkipSpace(s)|..];
      forall k | 0 <= k < |s| - |SkipSpace(s)|
        ensures IsSpace(s[k])
      {
        if k > 0 {
          assert s[k] == s[1..][k - 1];
        }
      }
    }
  }

  /** The leading run of non-whitespace characters of `s` (what "%s" reads). */
  function Word(s: string): (r: string)
    ensures r <= s
    ensures |r| < |s| ==> IsSpace(s[|r|])
    ensures s != [] && !IsSpace(s[0]) ==> r != []
  {
    if s != [] && !IsSpace(s[0]) then [s[0]] + Word(s[1..]) else []
  }

  /** `w` holds no whitespace character. */
  predicate Unspaced(w: string) {
    forall i :: 0 <= i < |w| ==> !IsSpace(w[i])
  }

  /** A word holds no whitespace. */
  lemma {:induction false} WordHasNoSpace(s: string)
    ensures Unspaced(Word(s))
  {
    if s != [] && !IsSpace(s[0]) {
      WordHasNoSpace(s[1..]);
      assert Word(s) == [s[0]] + Word(s[1..]);
    }
  }

  lemma {:induction false} NonSpaceSkipSpace(s: string)
    ensures NonSpace(SkipSpace(s)) == NonSpace(s)
  {
    if s != [] && IsSpace(s[0]) {
      NonSpaceSkipSpace(s[1..]);
    }
  }

  /** The whitespace-separated tokens of `s`, as repeated "%s" reads them. */
  function Tokens(s: string): seq<string>
    decreases |s|
  {
    var t := SkipSpace(s);
    if t == [] then []
    else
      var w := Word(t);
      [w] + Tokens(t[|w|..])
  }

  /** Every token is a non-empty word without whitespace. */
  lemma {:induction false} TokensAreWords(s: string)
    ensures forall k :: 0 <= k < |Tokens(s)| ==> Tokens(s)[k] != [] && Unspaced(Tokens(s)[k])
    decreases |s|
  {
    var t := SkipSpace(s);
    if t != [] {
      var w := Word(t);
      var more := Tokens(t[|w|..]);
      WordHasNoSpace(t);
      TokensAreWords(t[|w|..]);
      assert Tokens(s) == [w] + more;
      forall k | 0 <= k < |Tokens(s)|
        ensures Tokens(s)[k] != [] && Unspaced(Tokens(s)[k])
      {
        if k > 0 {
          assert Tokens(s)[k] == more[k - 1];
        }
      }
    }
  }

  function Concat(ws: seq<string>): string {
    if ws == [] then [] else ws[0] + Concat(ws[1..])
  }

  /** Tokenising loses exactly the whitespace: the tokens spell `NonSpace(s)`. */
  lemma {:induction false} TokensSpellNonSpace(s: string)
    ensures Concat(Tokens(s)) == NonSpace(s)
    decreases |s|
  {
    var t := SkipSpace(s);
    NonSpaceSkipSpace(s);
    if t != [] {
      var w := Word(t);
      var after := t[|w|..];
      var more := Tokens(after);
      assert t == w + after;
      assert Tokens(s) == [w] + more;
      assert ([w] + more)[0] == w && ([w] + more)[1..] == more;
      TokensSpellNonSpace(after);
      NonSpaceAppend(w, after);
      NonSpaceOfWord(t);
      calc {
        Concat(Tokens(s));
        w + Concat(more);
        w + NonSpace(after);
        NonSpace(w) + NonSpace(after);
        NonSpace(t);
      }
    }
  }

  lemma SkipSpaceAt(s: string, i: nat)
    requires i < |s| && IsSpace(s[i])
    ensures SkipSpace(s[i..]) == SkipSpace(s[i + 1..])
  {
    assert s[i..][1..] == s[i + 1..];
  }

  /** Tokens see a string only after its leading whitespace. */
  lemma TokensSkipSpace(a: string, b: string)
    requires SkipSpace(a) == SkipSpace(b)
    ensures Tokens(a) == Tokens(b)
  {
  }

  /** The `while (isspace(*p)) p++` loop from position `i`; it passes over no token. */
  method SkipBlanks(s: string, i: nat) returns (j: nat)
    requires i <= |s|
    ensures i <= j <= |s| && (j < |s| ==> !IsSpace(s[j]))
    ensures Tokens(s[j..]) == Tokens(s[i..])
  {
    j := i;
    while j < |s| && IsSpace(s[j])
      invariant i <= j <= |s|
      invariant SkipSpace(s[j..]) == SkipSpace(s[i..])
    {
      SkipSpaceAt(s, j);
      j := j + 1;
    }
    TokensSkipSpace(s[j..], s[i..]);
  }

  /** At a non-whitespace character the first token is the word that starts there. */
  lemma TokensWord(s: string, i: nat, w: string)
    requires i < |s| && !IsSpace(s[i]) && w == Word(s[i..])
    ensures i + |w| <= |s| && Tokens(s[i..]) == [w] + Tokens(s[i + |w|..])
  {
    var t := s[i..];
    assert SkipSpace(t) == t;
    assert t[|w|..] == s[i + |w|..];
  }

  /**
    The `sscanf(p, "%s", tok)` loop of useActionLineAndAddNodes over the text
    after the colon: each pass reads the word at the pointer, moves past it and
    past the whitespace that follows. The words read are `Tokens(rest)`, in order.
  */
  method SplitTokens(rest: string) returns (toks: seq<string>)
    ensures toks == Tokens(rest)
  {
    var pos := SkipBlanks(rest, 0);
    assert rest[0..] == rest;
    toks := [];
    while pos < |rest|
      invariant pos <= |rest| && (pos < |rest| ==> !IsSpace(rest[pos]))
      invariant Tokens(rest) == toks + Tokens(rest[pos..])
      decreases |rest| - pos
    {
      var tok := Word(rest[pos..]);
      pos := NextToken(rest, pos, tok);
      toks := toks + [tok];
    }
    assert rest[pos..] == [];
    assert toks + [] == toks;
  }

  /** `restPointers += strlen(tok)` and the whitespace skip: the pointer moves to the next token. */
  method NextToken(rest: string, pos: nat, tok: string) returns (next: nat)
    requires pos < |rest| && !IsSpace(rest[pos]) && tok == Word(rest[pos..])
    ensures pos < next <= |rest| && (next < |rest| ==> !IsSpace(rest[next]))
    ensures Tokens(rest[pos..]) == [tok] + Tokens(rest[next..])
  {
    TokensWord(rest, pos, tok);
    next := SkipBlanks(rest, pos + |tok|);
  }

  // ---------------------------------------------------------------------
  // Command lines

  /**
    The command text of a tab line (parseMakeFile.c, parseMakeFileData): the
    leading whitespace (the tab included) is skipped and the line is cut at
    its first newline.
  */
  method TrimCommand(line: string) returns (text: string)
    ensures text == UpTo(SkipSpace(line), '\n')
    ensures text == [] || !IsSpace(text[0])
    ensures '\n' !in text
  {
    var start := LeadingSpace(line);
    var p := LineEnd(line, start);
    text := line[start..p];
    assert text == [] || text[0] == line[start..][0];
  }

  /** The pointer loop that skips the leading whitespace of a command line. */
  method LeadingSpace(line: string) returns (start: nat)
    ensures start <= |line| && line[start..] == SkipSpace(line)
  {
    start := 0;
    while start < |line| && IsSpace(line[start])
      invariant start <= |line|
      invariant SkipSpace(line[start..]) == SkipSpace(line)
    {
      assert line[start..][1..] == line[start + 1..];
      start := start + 1;
    }
    assert start < |line| ==> line[start..][0] == line[start];
  }

  /** The loop that finds the newline ending the command text, or the end of the line. */
  method LineEnd(line: string, start: nat) returns (p: nat)
    requires start <= |line|
    ensures start <= p <= |line| && line[start..p] == UpTo(line[start..], '\n')
  {
    p := start;
    while p < |line| && line[p] != '\n'
      invariant start <= p <= |line|
      invariant '\n' !in line[start..p]
    {
      assert line[start..p + 1] == line[start..p] + [line[p]];
      p := p + 1;
    }
    assert line[start..][..p - start] == line[start..p];
    UpToIsPrefixBeforeStop(line[start..], '\n', p - start);
  }

  // ---------------------------------------------------------------------
  // fixLine

  /** The first index at or after `i` that does not hold whitespace. */
  function SkipFrom(s: string, i: nat): (j: nat)
    requires i <= |s|
    ensures i <= j <= |s|
    ensures j < |s| ==> !IsSpace(s[j])
    decreases |s| - i
  {
    if i < |s| && IsSpace(s[i]) then SkipFrom(s, i + 1) else i
  }

  /** What SkipFrom passes over is whitespace. */
  lemma {:induction false} SkipFromKeepsNonSpace(s: string, i: nat)
    requires i <= |s|
    ensures NonSpace(s[SkipFrom(s, i)..]) == NonSpace(s[i..])
    decreases |s| - i
  {
    if i < |s| && IsSpace(s[i]) {
      assert s[i..][1..] == s[i + 1..];
      SkipFromKeepsNonSpace(s, i + 1);
    }
  }

  /** The last index of the whitespace run starting at `i` (or `i` itself). */
  function CollapseFrom(s: string, i: nat): (j: nat)
    requires i < |s|
    ensures i <= j < |s|
    ensures j == i || IsSpace(s[j])
    decreases |s| - i
  {
    if IsSpace(s[i]) && IsSpace(At(s, i + 1)) then CollapseFrom(s, i + 1) else i
  }

  /** What CollapseFrom passes over is whitespace. */
  lemma {:induction false} CollapseFromKeepsNonSpace(s: string, i: nat)
    requires i < |s|
    ensures NonSpace(s[CollapseFrom(s, i)..]) == NonSpace(s[i..])
    decreases |s| - i
  {
    if IsSpace(s[i]) && IsSpace(At(s, i + 1)) {
      assert s[i..][1..] == s[i + 1..];
      CollapseFromKeepsNonSpace(s, i + 1);
    }
  }

  /**
    What fixLine writes for the character at `k`: the character itself, then a
    space exactly when a ':' comes next or it is a ':' not followed by
    whitespace. Only whitespace is ever added.
  */
  function Emit(s: string, k: nat): (r: string)
    requires k < |s|
    ensures 1 <= |r| <= 2 && r[0] == s[k]
    ensures |r| == 2 <==> At(s, k + 1) == ':' || (s[k] == ':' && !IsSpace(At(s, k + 1)))
    ensures |r| == 2 ==> r[1] == ' '
    ensures NonSpace(r) == NonSpace([s[k]])
  {
    if At(s, k + 1) == ':' then
      NonSpaceAppend([s[k]], [' ']);
      [s[k]] + [' ']
    else if s[k] == ':' && !IsSpace(At(s, k + 1)) then
      NonSpaceAppend([':'], [' ']);
      [':'] + [' ']
    else [s[k]]
  }

  /**
    fixLine's output once `written` has been written and the input from
    index `i` on is still to be read; `written != []` is `newIndex != 0`.
  */
  function FixFrom(s: string, i: nat, written: string): string
    requires i <= |s|
    decreases |s| - i
  {
    if i == |s| then written
    else
      var j := if written != [] then i else SkipFrom(s, i);
      if j == |s| then written
      else
        var k := CollapseFrom(s, j);
        FixFrom(s, k + 1, written + Emit(s, k))
  }

  /** The normalised target line fixLine produces. */
  function Fixed(s: string): string {
    FixFrom(s, 0, [])
  }

  /** fixLine's leading-whitespace loop: the first non-whitespace index at or after `i`. */
  method SkipLeading(s: string, i: nat) returns (j: nat)
    requires i <= |s|
    ensures j == SkipFrom(s, i)
  {
    j := i;
    while j < |s| && IsSpace(s[j])
      invariant i <= j <= |s|
      invariant SkipFrom(s, j) == SkipFrom(s, i)
    {
      j := j + 1;
    }
  }

  /** fixLine's whitespace-run loop: moves to the last character of the run at `i`. */
  method CollapseRun(s: string, i: nat) returns (j: nat)
    requires i < |s|
    ensures j == CollapseFrom(s, i)
  {
    j := i;
    while IsSpace(s[j]) && IsSpace(At(s, j + 1))
      invariant i <= j < |s|
      invariant CollapseFrom(s, j) == CollapseFrom(s, i)
      decreases |s| - j
    {
      j := j + 1;
    }
  }

  /** What one round of fixLine writes for the character at `index`. */
  method WriteAt(s: string, index: nat) returns (written: string)
    requires index < |s|
    ensures written == Emit(s, index)
  {
    if At(s, index + 1) == ':' {
      written := [s[index], ' '];
    } else if s[index] == ':' && !IsSpace(At(s, index + 1)) {
      written := [s[index], ' '];
    } else {
      written := [s[index]];
    }
  }

  /**
    fixLine (parseMakeFile.c): drops the leading whitespace, keeps only the
    last character of every whitespace run, writes a space after a character
    that precedes ':', and a space after a ':' that is not followed by
    whitespace. The non-whitespace characters are kept, in order.
  */
  method FixLine(oldLine: string) returns (newLine: string)
    ensures newLine == Fixed(oldLine)
    ensures NonSpace(newLine) == NonSpace(oldLine)
  {
    var index := 0;
    newLine := [];
    while index < |oldLine|
      invariant index <= |oldLine|
      invariant FixFrom(oldLine, index, newLine) == Fixed(oldLine)
      decreases |oldLine| - index
    {
      ghost var top := index;
      if newLine == [] {
        index := SkipLeading(oldLine, index);
        if index == |oldLine| {
          // only whitespace is left: nothing more is written
          assert FixFrom(oldLine, top, newLine) == newLine;
          break;
        }
      }
      ghost var start := index;
      index := CollapseRun(oldLine, index);
      FixFromStep(oldLine, top, newLine, start, index);
      var written := WriteAt(oldLine, index);
      newLine := newLine + written;
      index := index + 1;
    }
    FixLineKeepsNonSpace(oldLine);
  }

  lemma NonSpaceEmit(s: string, k: nat)
    requires k < |s|
    ensures NonSpace(Emit(s, k)) + NonSpace(s[k + 1..]) == NonSpace(s[k..])
  {
    assert s[k..] == [s[k]] + s[k + 1..];
    NonSpaceAppend([s[k]], s[k + 1..]);
  }

  /** One round of fixLine, as its specification unfolds. */
  lemma FixFromStep(s: string, i: nat, written: string, j: nat, k: nat)
    requires i <= j < |s| && j == (if written != [] then i else SkipFrom(s, i))
    requires k == CollapseFrom(s, j)
    ensures FixFrom(s, i, written) == FixFrom(s, k + 1, written + Emit(s, k))
  {
  }

  /** One round of fixLine moves non-whitespace characters from the input to the output, in order. */
  lemma RoundKeepsNonSpace(s: string, i: nat, written: string, j: nat, k: nat)
    requires i <= j < |s| && j == (if written != [] then i else SkipFrom(s, i))
    requires k == CollapseFrom(s, j)
    ensures NonSpace(written) + NonSpace(s[i..]) == NonSpace(written + Emit(s, k)) + NonSpace(s[k + 1..])
  {
    var e := Emit(s, k);
    calc {
      NonSpace(written) + NonSpace(s[i..]);
      == { if written == [] { SkipFromKeepsNonSpace(s, i); } CollapseFromKeepsNonSpace(s, j); }
      NonSpace(written) + NonSpace(s[k..]);
      == { NonSpaceEmit(s, k); }
      NonSpace(written) + (NonSpace(e) + NonSpace(s[k + 1..]));
      ==
      (NonSpace(written) + NonSpace(e)) + NonSpace(s[k + 1..]);
      == { NonSpaceAppend(written, e); }
      NonSpace(written + e) + NonSpace(s[k + 1..]);
    }
  }

  /** fixLine stops at the end of its input, and before the first write when only whitespace is left. */
  lemma StopKeepsNonSpace(s: string, i: nat, written: string)
    requires i == |s| || (i < |s| && written == [] && SkipFrom(s, i) == |s|)
    ensures NonSpace(FixFrom(s, i, written)) == NonSpace(written) + NonSpace(s[i..])
  {
    assert FixFrom(s, i, written) == written;
    if i < |s| {
      SkipFromKeepsNonSpace(s, i);
    }
    assert NonSpace(s[|s|..]) == [];
    assert NonSpace(written) + [] == NonSpace(written);
  }

  lemma {:induction false} FixFromKeepsNonSpace(s: string, i: nat, written: string)
    requires i <= |s|
    ensures NonSpace(FixFrom(s, i, written)) == NonSpace(written) + NonSpace(s[i..])
    decreases |s| - i
  {
    if i == |s| || (written == [] && SkipFrom(s, i) == |s|) {
      StopKeepsNonSpace(s, i, written);
    } else {
      var j := if written != [] then i else SkipFrom(s, i);
      var k := CollapseFrom(s, j);
      var next := written + Emit(s, k);
      calc {
        NonSpace(FixFrom(s, i, written));
        { FixFromStep(s, i, written, j, k); }
        NonSpace(FixFrom(s, k + 1, next));
        { FixFromKeepsNonSpace(s, k + 1, next); }
        NonSpace(next) + NonSpace(s[k + 1..]);
        { RoundKeepsNonSpace(s, i, written, j, k); }
        NonSpace(written) + NonSpace(s[i..]);
      }
    }
  }

  /** fixLine changes only whitespace: its non-whitespace characters are the input's, in order. */
  lemma FixLineKeepsNonSpace(s: string)
    ensures NonSpace(Fixed(s)) == NonSpace(s)
  {
    FixFromKeepsNonSpace(s, 0, []);
    assert s[0..] == s;
  }

  // ---------------------------------------------------------------------
  // sscanf(line, "%s : %[^\n]", target, rest)

  /** The return value of `sscanf` (-1 for EOF) and what it stored. */
  datatype Scan = Scan(count: int, target: string, rest: string)

  /**
    sscanf(line, "%s : %[^\n]", tempTarget, tempPointers): the first word is the
    target; whitespace, a ':' and whitespace must follow for the rest of the
    line (up to a newline) to be read. An all-whitespace line is EOF (-1).
  */
  function ScanTargetLine(s: string): (r: Scan)
    ensures r.count == -1 || r.count == 1 || r.count == 2
    ensures r.count >= 1 ==> Tokens(s) != [] && r.target == Tokens(s)[0]
    ensures r.count == 2 ==> r.rest != [] && !IsSpace(r.rest[0]) && '\n' !in r.rest
    ensures r.count != 2 ==> r.rest == []
  {
    var t := SkipSpace(s);
    if t == [] then Scan(-1, [], [])
    else
      var w := Word(t);
      var rest := ScanRest(SkipSpace(t[|w|..]));
      Scan(if rest == [] then 1 else 2, w, rest)
  }

  /**
    The " : %[^\n]" part of the pattern, on the text after the target word
    with its whitespace skipped: a ':', any whitespace, then at least one
    character before the newline.
  */
  function ScanRest(u: string): (rest: string)
    ensures rest == [] || (!IsSpace(rest[0]) && '\n' !in rest)
  {
    if u == [] || u[0] != ':' then []
    else
      var v := SkipSpace(u[1..]);
      assert UpTo(v, '\n') == [] || UpTo(v, '\n')[0] == v[0];
      UpTo(v, '\n')
  }

  /** sscanf reports EOF exactly for a line without a non-whitespace character. */
  lemma ScanEofIffBlank(s: string)
    ensures ScanTargetLine(s).count == -1 <==> NonSpace(s) == []
  {
    NonSpaceSkipSpace(s);
    var t := SkipSpace(s);
    if t != [] {
      assert NonSpace(t) == [t[0]] + NonSpace(t[1..]);
    }
  }

  /** A line holding a ':' always scans: the target word exists after fixLine. */
  lemma ColonLineScans(s: string)
    requires multiset(s)[':'] >= 1
    ensures ScanTargetLine(Fixed(s)).count >= 1
  {
    assert ':' in s;
    NonSpaceKeeps(s, ':');
    FixLineKeepsNonSpace(s);
    ScanEofIffBlank(Fixed(s));
  }
}
