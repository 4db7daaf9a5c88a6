/**
  What a rule line of the rule file reads as once fixLine has normalised it
  and sscanf(line, "%s : %[^\n]", ...) has scanned it (parseMakeFile.c,
  useActionLineAndAddNodes). For a line with exactly one ':', the target is
  the one word written before the colon and the dependency words are the
  words written after it, however the line spaces them ("a:b", "a : b" and
  "a:  b" read alike); with more than one word before the colon the line
  scans as a target without dependencies.
*/
module TargetLine {
  import opened LineText

  /**
    What fixLine makes of the stretch of `s` from `i` to `e` when it holds no
    ':' and something has been written already: every whitespace run is cut
    down to its last character.
  */
  function Squeezed(s: string, i: nat, e: nat): string
    requires i <= e <= |s|
    decreases e - i
  {
    if i == e then []
    else if IsSpace(s[i]) && IsSpace(At(s, i + 1)) then Squeezed(s, i + 1, e)
    else [s[i]] + Squeezed(s, i + 1, e)
  }

  /** A '\n' appears in `x`, if at all, as its last character (a line from getline). */
  predicate NewlineLast(x: string) {
    forall i :: 0 <= i < |x| - 1 ==> x[i] != '\n'
  }

  /** `s` holds exactly one ':', at `p`. */
  predicate OneColonAt(s: string, p: nat) {
    p < |s| && s[p] == ':' && forall k :: 0 <= k < |s| && k != p ==> s[k] != ':'
  }

  /** Regrouping the pieces of a fixed rule line (kept apart from the fixLine definitions). */
  lemma Regroup(a: string, e: string, b: string)
    ensures a + [' '] + e + b == a + ([' '] + e + b)
  {
  }

  /** Dropping a prefix of the first part of a concatenation. */
  lemma DropFront(a: string, b: string, n: nat)
    requires n <= |a|
    ensures (a + b)[n..] == a[n..] + b
  {
  }

  // ---------------------------------------------------------------------
  // Squeezed

  /** Squeezing keeps emptiness and the first character's kind, where whitespace ends the stretch only at the end of `s`. */
  lemma {:induction false} SqueezedHead(s: string, i: nat, e: nat)
    requires i <= e <= |s| && (e < |s| ==> !IsSpace(s[e]))
    ensures Squeezed(s, i, e) == [] <==> i == e
    ensures i < e ==> (IsSpace(Squeezed(s, i, e)[0]) <==> IsSpace(s[i]))
    decreases e - i
  {
    if i < e && IsSpace(s[i]) && IsSpace(At(s, i + 1)) {
      SqueezedHead(s, i + 1, e);
    }
  }

  /** Squeezing keeps only characters of the stretch. */
  lemma {:induction false} SqueezedAvoids(s: string, i: nat, e: nat, c: char)
    requires i <= e <= |s|
    requires forall k :: i <= k < e ==> s[k] != c
    ensures c !in Squeezed(s, i, e)
    decreases e - i
  {
    if i < e {
      SqueezedAvoids(s, i + 1, e, c);
    }
  }

  /** Squeezing the end of a getline line keeps its '\n' at the end. */
  lemma {:induction false} SqueezedNewlineLast(s: string, i: nat)
    requires i <= |s| && NewlineLast(s)
    ensures NewlineLast(Squeezed(s, i, |s|))
    decreases |s| - i
  {
    if i < |s| {
      SqueezedNewlineLast(s, i + 1);
      SqueezedHead(s, i + 1, |s|);
    }
  }

  /** Squeezing a stretch starts with the character CollapseFrom lands on. */
  lemma {:induction false} SqueezedSplit(s: string, i: nat, e: nat)
    requires i < e <= |s| && (e < |s| ==> !IsSpace(s[e]))
    ensures CollapseFrom(s, i) < e
    ensures Squeezed(s, i, e) == [s[CollapseFrom(s, i)]] + Squeezed(s, CollapseFrom(s, i) + 1, e)
    decreases e - i
  {
    if IsSpace(s[i]) && IsSpace(At(s, i + 1)) {
      SqueezedSplit(s, i + 1, e);
    }
  }

  /** A whitespace character in front of `x` is invisible to Tokens. */
  lemma TokensConsSpace(c: char, x: string)
    requires IsSpace(c)
    ensures Tokens([c] + x) == Tokens(x)
  {
    var y := [c] + x;
    assert y[1..] == x;
    assert SkipSpace(y) == SkipSpace(x);
  }

  /** A word character in front of `x` is a token of its own when whitespace (or nothing) follows. */
  lemma TokensConsAlone(c: char, x: string)
    requires !IsSpace(c) && (x == [] || IsSpace(x[0]))
    ensures Tokens([c] + x) == [[c]] + Tokens(x)
  {
    var y := [c] + x;
    assert y[1..] == x;
    assert SkipSpace(y) == y;
    assert Word(x) == [];
    assert Word(y) == [c];
    assert y[|[c]|..] == x;
  }

  /** A word character in front of a word joins the first token. */
  lemma TokensConsJoin(c: char, x: string)
    requires !IsSpace(c) && x != [] && !IsSpace(x[0])
    ensures Tokens(x) != [] && Tokens([c] + x) == [[c] + Tokens(x)[0]] + Tokens(x)[1..]
  {
    var y := [c] + x;
    assert y[1..] == x;
    assert SkipSpace(y) == y;
    assert SkipSpace(x) == x;
    var w := Word(x);
    assert Word(y) == [c] + w;
    assert y[|[c] + w|..] == x[|w|..];
    assert Tokens(x) == [w] + Tokens(x[|w|..]);
  }

  /** The three ways a character in front changes the tokens. */
  lemma TokensCons(c: char, x: string)
    ensures IsSpace(c) ==> Tokens([c] + x) == Tokens(x)
    ensures !IsSpace(c) && (x == [] || IsSpace(x[0])) ==> Tokens([c] + x) == [[c]] + Tokens(x)
    ensures !IsSpace(c) && x != [] && !IsSpace(x[0]) ==>
      Tokens(x) != [] && Tokens([c] + x) == [[c] + Tokens(x)[0]] + Tokens(x)[1..]
  {
    if IsSpace(c) {
      TokensConsSpace(c, x);
    } else if x == [] || IsSpace(x[0]) {
      TokensConsAlone(c, x);
    } else {
      TokensConsJoin(c, x);
    }
  }

  /** Squeezing whitespace runs changes no token. */
  lemma {:induction false} SqueezedTokens(s: string, i: nat, e: nat)
    requires i <= e <= |s| && (e < |s| ==> !IsSpace(s[e]))
    ensures Tokens(Squeezed(s, i, e)) == Tokens(s[i..e])
    decreases e - i
  {
    if i < e {
      assert s[i..e] == [s[i]] + s[i + 1..e];
      SqueezedTokens(s, i + 1, e);
      TokensCons(s[i], s[i + 1..e]);
      if !(IsSpace(s[i]) && IsSpace(At(s, i + 1))) {
        SqueezedHead(s, i + 1, e);
        if i + 1 < e {
          assert s[i + 1..e][0] == s[i + 1];
        }
        TokensCons(s[i], Squeezed(s, i + 1, e));
      }
    }
  }

  // ---------------------------------------------------------------------
  // fixLine on a line with one ':'

  /** A character that is no ':' and has no ':' after it is copied as it is. */
  lemma CopiedAt(s: string, k: nat)
    requires k < |s| && s[k] != ':' && At(s, k + 1) != ':'
    ensures Emit(s, k) == [s[k]]
  {
  }

  /** The character just before a ':' gets a space after it. */
  lemma SpacedAt(s: string, k: nat)
    requires k + 1 < |s| && s[k + 1] == ':'
    ensures Emit(s, k) == [s[k], ' ']
  {
  }

  /** After the colon fixLine only squeezes: nothing else can add a space. */
  lemma {:induction false} FixColonFree(s: string, i: nat, written: string)
    requires i <= |s| && written != []
    requires forall k :: i <= k < |s| ==> s[k] != ':'
    ensures FixFrom(s, i, written) == written + Squeezed(s, i, |s|)
    decreases |s| - i
  {
    if i < |s| {
      var k := CollapseFrom(s, i);
      calc {
        FixFrom(s, i, written);
        { FixFromStep(s, i, written, i, k); CopiedAt(s, k); }
        FixFrom(s, k + 1, written + [s[k]]);
        { FixColonFree(s, k + 1, written + [s[k]]); }
        (written + [s[k]]) + Squeezed(s, k + 1, |s|);
        written + ([s[k]] + Squeezed(s, k + 1, |s|));
        { SqueezedSplit(s, i, |s|); }
        written + Squeezed(s, i, |s|);
      }
    }
  }

  /** At the colon: ": " (or ":" when whitespace follows), then the rest squeezed. */
  lemma FixAtColon(s: string, p: nat, written: string)
    requires OneColonAt(s, p) && written != []
    ensures FixFrom(s, p, written) == written + Emit(s, p) + Squeezed(s, p + 1, |s|)
  {
    assert CollapseFrom(s, p) == p;
    FixFromStep(s, p, written, p, p);
    FixColonFree(s, p + 1, written + Emit(s, p));
  }

  /** Before the colon fixLine squeezes, and puts one space in front of the colon. */
  lemma {:induction false} FixBeforeColon(s: string, i: nat, p: nat, written: string)
    requires OneColonAt(s, p) && i < p && written != []
    ensures FixFrom(s, i, written) == written + Squeezed(s, i, p) + [' '] + Emit(s, p) + Squeezed(s, p + 1, |s|)
    decreases p - i
  {
    var k := CollapseFrom(s, i);
    var e := Emit(s, p);
    var b := Squeezed(s, p + 1, |s|);
    SqueezedSplit(s, i, p);
    if k + 1 == p {
      calc {
        FixFrom(s, i, written);
        { FixFromStep(s, i, written, i, k); SpacedAt(s, k); }
        FixFrom(s, p, written + [s[k], ' ']);
        { FixAtColon(s, p, written + [s[k], ' ']); }
        written + [s[k], ' '] + e + b;
        { assert Squeezed(s, i, p) == [s[k]]; }
        written + Squeezed(s, i, p) + [' '] + e + b;
      }
    } else {
      calc {
        FixFrom(s, i, written);
        { FixFromStep(s, i, written, i, k); CopiedAt(s, k); }
        FixFrom(s, k + 1, written + [s[k]]);
        { FixBeforeColon(s, k + 1, p, written + [s[k]]); }
        written + [s[k]] + Squeezed(s, k + 1, p) + [' '] + e + b;
        { assert written + [s[k]] + Squeezed(s, k + 1, p) == written + Squeezed(s, i, p); }
        written + Squeezed(s, i, p) + [' '] + e + b;
      }
    }
  }

  /** Where SkipFrom stops on `s` is where SkipSpace stops on the stretch from `i` to `e`. */
  lemma {:induction false} SkipFromSlice(s: string, i: nat, e: nat)
    requires i <= e <= |s|
    requires e < |s| ==> !IsSpace(s[e])
    ensures SkipFrom(s, i) <= e && SkipSpace(s[i..e]) == s[SkipFrom(s, i)..e]
    decreases e - i
  {
    if i < e {
      assert s[i..e][0] == s[i] && s[i..e][1..] == s[i + 1..e];
      if IsSpace(s[i]) {
        SkipFromSlice(s, i + 1, e);
      }
    }
  }

  /**
    fixLine on a line with one ':' and a word before it: the squeezed text
    from the first word to the colon, one space, the colon with a space after
    it unless whitespace follows, then the squeezed rest.
  */
  lemma FixedRuleShape(s: string, p: nat) returns (j: nat)
    requires OneColonAt(s, p)
    requires Tokens(s[..p]) != []
    ensures j < p && !IsSpace(s[j]) && SkipSpace(s[..p]) == s[j..p]
    ensures Fixed(s) == Squeezed(s, j, p) + ([' '] + Emit(s, p) + Squeezed(s, p + 1, |s|))
  {
    j := SkipFrom(s, 0);
    assert s[..p] == s[0..p];
    SkipFromSlice(s, 0, p);
    FixedStart(s, j);
    ReachColon(s, p, j);
    Regroup(Squeezed(s, j, p), Emit(s, p), Squeezed(s, p + 1, |s|));
  }

  /** fixLine skips the leading whitespace and writes the first character after it. */
  lemma FixedStart(s: string, j: nat)
    requires j < |s| && j == SkipFrom(s, 0)
    ensures Fixed(s) == FixFrom(s, j + 1, Emit(s, j))
  {
    assert CollapseFrom(s, j) == j;
    FixFromStep(s, 0, [], j, j);
    assert [] + Emit(s, j) == Emit(s, j);
  }

  /** From the first word on: the squeezed text to the colon, one space, the colon, the squeezed rest. */
  lemma ReachColon(s: string, p: nat, j: nat)
    requires OneColonAt(s, p) && j < p && !IsSpace(s[j])
    ensures FixFrom(s, j + 1, Emit(s, j)) == Squeezed(s, j, p) + [' '] + Emit(s, p) + Squeezed(s, p + 1, |s|)
  {
    SqueezedSplit(s, j, p);
    assert CollapseFrom(s, j) == j;
    if j + 1 == p {
      SpacedAt(s, j);
      assert Squeezed(s, j, p) == [s[j]];
      assert [s[j], ' '] == Squeezed(s, j, p) + [' '];
      FixAtColon(s, p, [s[j], ' ']);
    } else {
      CopiedAt(s, j);
      FixBeforeColon(s, j + 1, p, [s[j]]);
    }
  }

  // ---------------------------------------------------------------------
  // What sscanf then reads

  /** Skipping leading whitespace passes over a stretch that is all whitespace. */
  lemma {:induction false} SkipSpaceWhite(a: string, b: string)
    requires SkipSpace(a) == []
    ensures SkipSpace(a + b) == SkipSpace(b)
    decreases |a|
  {
    if a != [] {
      assert IsSpace(a[0]) && SkipSpace(a[1..]) == [];
      assert (a + b)[0] == a[0] && (a + b)[1..] == a[1..] + b;
      SkipSpaceWhite(a[1..], b);
      assert SkipSpace(a + b) == SkipSpace(a[1..] + b);
    } else {
      assert a + b == b;
    }
  }

  /** Skipping leading whitespace stops inside `a` when `a` has a non-whitespace character. */
  lemma {:induction false} SkipSpaceInside(a: string, b: string)
    requires SkipSpace(a) != []
    ensures SkipSpace(a + b) == SkipSpace(a) + b
    decreases |a|
  {
    if IsSpace(a[0]) {
      assert (a + b)[1..] == a[1..] + b;
      SkipSpaceInside(a[1..], b);
    }
  }

  /** "%s" reads the same word from `x` and from `x + y` when the word ends inside `x` or `y` starts with whitespace. */
  lemma {:induction false} WordStops(x: string, y: string)
    requires y == [] || IsSpace(y[0]) || |Word(x)| < |x|
    ensures Word(x + y) == Word(x)
    decreases |x|
  {
    if x == [] {
      assert x + y == y;
    } else {
      assert (x + y)[0] == x[0];
      if !IsSpace(x[0]) {
        assert (x + y)[1..] == x[1..] + y;
        WordStops(x[1..], y);
      }
    }
  }

  /** The first token of a string that starts with a word character is that word; only whitespace follows a lone token. */
  lemma FirstToken(x: string)
    requires x != [] && !IsSpace(x[0])
    ensures Tokens(x) != [] && Tokens(x)[0] == Word(x)
    ensures Tokens(x[|Word(x)|..]) == Tokens(x)[1..]
    ensures |Tokens(x)| == 1 ==> SkipSpace(x[|Word(x)|..]) == []
  {
  }

  /** A trailing whitespace character changes no token. */
  lemma {:induction false} TokensSpaceEnd(x: string, c: char)
    requires IsSpace(c)
    ensures Tokens(x + [c]) == Tokens(x)
    decreases |x|
  {
    if x == [] {
      TokensCons(c, []);
      assert [c] + [] == [c];
    } else {
      assert x == [x[0]] + x[1..];
      assert x + [c] == [x[0]] + (x[1..] + [c]);
      TokensSpaceEnd(x[1..], c);
      TokensCons(x[0], x[1..]);
      TokensCons(x[0], x[1..] + [c]);
    }
  }

  /** Stopping at a final newline changes no token. */
  lemma NewlineCut(y: string)
    requires NewlineLast(y)
    ensures Tokens(UpTo(y, '\n')) == Tokens(y)
  {
    if '\n' in y {
      var m := |y| - 1;
      assert y[m] == '\n';
      assert '\n' !in y[..m];
      UpToIsPrefixBeforeStop(y, '\n', m);
      assert y == y[..m] + ['\n'];
      TokensSpaceEnd(y[..m], '\n');
    } else {
      UpToIsPrefixBeforeStop(y, '\n', |y|);
      assert y[..|y|] == y;
    }
  }

  /** Skipping leading whitespace keeps a '\n' at the end. */
  lemma SkipSpaceNewlineLast(x: string)
    requires NewlineLast(x)
    ensures NewlineLast(SkipSpace(x))
  {
    SkipSpaceSuffix(x);
    var d := |x| - |SkipSpace(x)|;
    forall i | 0 <= i < |SkipSpace(x)| - 1
      ensures SkipSpace(x)[i] != '\n'
    {
      assert SkipSpace(x)[i] == x[d + i];
    }
  }

  /** The dependency text sscanf stores for the squeezed rest of a line holds the rest's words. */
  lemma RestTokens(s: string, i: nat)
    requires i <= |s| && NewlineLast(s)
    ensures Tokens(UpTo(SkipSpace(Squeezed(s, i, |s|)), '\n')) == Tokens(s[i..])
  {
    var sb := Squeezed(s, i, |s|);
    SqueezedNewlineLast(s, i);
    SkipSpaceNewlineLast(sb);
    NewlineCut(SkipSpace(sb));
    TokensSkipSpace(SkipSpace(sb), sb);
    SqueezedTokens(s, i, |s|);
    assert s[i..|s|] == s[i..];
  }

  /** After a lone first word, "%s : " stops right at the ':'. */
  lemma AfterLoneWord(sa: string, t: string)
    requires SkipSpace(sa[|Word(sa)|..]) == []
    requires |t| >= 2 && t[0] == ' ' && t[1] == ':'
    ensures SkipSpace((sa + t)[|Word(sa)|..]) == t[1..]
  {
    DropFront(sa, t, |Word(sa)|);
    SkipSpaceWhite(sa[|Word(sa)|..], t);
    assert t[1..][0] == ':';
  }

  /** What "%s : %[^\n]" reads from the shape fixLine gives a one-word target line. */
  lemma ScanOneWord(sa: string, t: string, w: string)
    requires sa != [] && !IsSpace(sa[0]) && Tokens(sa) == [w]
    requires |t| >= 2 && t[0] == ' ' && t[1] == ':'
    ensures ScanTargetLine(sa + t).count >= 1
    ensures ScanTargetLine(sa + t).target == w
    ensures ScanTargetLine(sa + t).rest == UpTo(SkipSpace(t[2..]), '\n')
  {
    FirstToken(sa);
    assert (sa + t)[0] == sa[0];
    WordStops(sa, t);
    AfterLoneWord(sa, t);
    assert t[1..][1..] == t[2..];
  }

  /** What "%s : %[^\n]" reads from a one-word target line as fixLine leaves it. */
  lemma ScanRuleShape(sa: string, e: string, sb: string, w: string)
    requires sa != [] && !IsSpace(sa[0]) && Tokens(sa) == [w]
    requires e != [] && e[0] == ':' && SkipSpace(e[1..]) == []
    ensures ScanTargetLine(sa + ([' '] + e + sb)).count >= 1
    ensures ScanTargetLine(sa + ([' '] + e + sb)).target == w
    ensures ScanTargetLine(sa + ([' '] + e + sb)).rest == UpTo(SkipSpace(sb), '\n')
  {
    ScanOneWord(sa, [' '] + e + sb, w);
    AfterColon(e, sb);
  }

  /** After the ':' that fixLine writes, "%[^\n]" starts where the squeezed rest does. */
  lemma AfterColon(e: string, sb: string)
    requires e != [] && SkipSpace(e[1..]) == []
    ensures SkipSpace(([' '] + e + sb)[2..]) == SkipSpace(sb)
  {
    assert ([' '] + e + sb)[2..] == e[1..] + sb;
    SkipSpaceWhite(e[1..], sb);
  }

  /** What fixLine writes for the ':' is the ':' and at most whitespace. */
  lemma EmitColon(s: string, p: nat)
    requires p < |s| && s[p] == ':'
    ensures Emit(s, p) != [] && Emit(s, p)[0] == ':' && SkipSpace(Emit(s, p)[1..]) == []
  {
    var e := Emit(s, p);
    if |e| == 2 {
      assert e[1..] == [' '];
    } else {
      assert e[1..] == [];
    }
  }

  /** The scan of a fixed one-word rule line, in terms of its squeezed rest. */
  lemma ScanFixedShape(s: string, p: nat, w: string)
    requires OneColonAt(s, p)
    requires Tokens(s[..p]) == [w]
    ensures ScanTargetLine(Fixed(s)).count >= 1
    ensures ScanTargetLine(Fixed(s)).target == w
    ensures ScanTargetLine(Fixed(s)).rest == UpTo(SkipSpace(Squeezed(s, p + 1, |s|)), '\n')
  {
    var j := FixedRuleShape(s, p);
    assert s[j..p][0] == s[j];
    TokensSkipSpace(s[..p], s[j..p]);
    SqueezedTokens(s, j, p);
    SqueezedHead(s, j, p);
    EmitColon(s, p);
    ScanRuleShape(Squeezed(s, j, p), Emit(s, p), Squeezed(s, p + 1, |s|), w);
  }

  /**
    A rule line with exactly one ':' and one word before it: after fixLine the
    scan yields that word as the target and, as the dependency text, the words
    written after the colon, in order.
  */
  lemma ScanFixedRule(s: string, p: nat, w: string)
    requires OneColonAt(s, p) && NewlineLast(s)
    requires Tokens(s[..p]) == [w]
    ensures ScanTargetLine(Fixed(s)).count >= 1
    ensures ScanTargetLine(Fixed(s)).target == w
    ensures Tokens(ScanTargetLine(Fixed(s)).rest) == Tokens(s[p + 1..])
  {
    ScanFixedShape(s, p, w);
    RestTokens(s, p + 1);
  }

  /** Skipping leading whitespace keeps only characters of `x`. */
  lemma {:induction false} SkipSpaceAvoids(x: string, c: char)
    requires c !in x
    ensures c !in SkipSpace(x)
    decreases |x|
  {
    if x != [] && IsSpace(x[0]) {
      assert c !in x[1..];
      SkipSpaceAvoids(x[1..], c);
    }
  }

  /** After the first of several words, "%s : " meets a word character that is no ':'. */
  lemma AfterFirstWord(sa: string, y: string)
    requires SkipSpace(sa[|Word(sa)|..]) != [] && ':' !in sa
    ensures var u := SkipSpace((sa + y)[|Word(sa)|..]); u != [] && u[0] != ':'
  {
    var r := sa[|Word(sa)|..];
    DropFront(sa, y, |Word(sa)|);
    SkipSpaceInside(r, y);
    assert ':' !in r;
    SkipSpaceAvoids(r, ':');
    assert (SkipSpace(r) + y)[0] == SkipSpace(r)[0];
  }

  /** What "%s : %[^\n]" reads when a second word stands where the ':' is looked for. */
  lemma ScanSeveralWords(sa: string, y: string)
    requires sa != [] && !IsSpace(sa[0]) && |Tokens(sa)| >= 2 && ':' !in sa
    ensures ScanTargetLine(sa + y) == Scan(1, Tokens(sa)[0], [])
  {
    FirstToken(sa);
    assert (sa + y)[0] == sa[0];
    WordStops(sa, y);
    AfterFirstWord(sa, y);
  }

  /** The same, on the shape fixLine leaves. */
  lemma ScanSeveralWordsShape(sa: string, e: string, sb: string)
    requires sa != [] && !IsSpace(sa[0]) && |Tokens(sa)| >= 2 && ':' !in sa
    ensures ScanTargetLine(sa + ([' '] + e + sb)) == Scan(1, Tokens(sa)[0], [])
  {
    ScanSeveralWords(sa, [' '] + e + sb);
  }

  /**
    A rule line with exactly one ':' and several words before it ("a b : c"):
    the colon is not where the pattern looks for it, so the scan stores the
    first word as the target and no dependency text.
  */
  lemma ScanFixedRuleExtraWords(s: string, p: nat)
    requires OneColonAt(s, p)
    requires |Tokens(s[..p])| >= 2
    ensures ScanTargetLine(Fixed(s)) == Scan(1, Tokens(s[..p])[0], [])
  {
    var j := FixedRuleShape(s, p);
    assert s[j..p][0] == s[j];
    TokensSkipSpace(s[..p], s[j..p]);
    SqueezedTokens(s, j, p);
    SqueezedHead(s, j, p);
    SqueezedAvoids(s, j, p, ':');
    ScanSeveralWordsShape(Squeezed(s, j, p), Emit(s, p), Squeezed(s, p + 1, |s|));
  }
  /** What "%s : %[^\n]" reads from a ':' followed by whitespace and no other ':'. */
  lemma ScanColonFirst(y: string)
    requires y != [] && IsSpace(y[0]) && ':' !in y
    ensures ScanTargetLine([':'] + y) == Scan(1, [':'], [])
  {
    WordStops([':'], y);
    assert ([':'] + y)[1..] == y;
    SkipSpaceAvoids(y, ':');
  }

  /**
    A rule line with exactly one ':' and no word before it (": b"): "%s"
    reads the ':' itself as the target, the pattern then finds no second
    ':', and the target ":" is declared with no dependency text.
  */
  lemma ScanFixedRuleNoWord(s: string, p: nat)
    requires OneColonAt(s, p)
    requires Tokens(s[..p]) == []
    ensures ScanTargetLine(Fixed(s)) == Scan(1, [':'], [])
  {
    SkipFromSlice(s, 0, p);
    assert s[0..p] == s[..p];
    FixedStart(s, p);
    var e := Emit(s, p);
    var sb := Squeezed(s, p + 1, |s|);
    FixColonFree(s, p + 1, e);
    SqueezedHead(s, p + 1, |s|);
    SqueezedAvoids(s, p + 1, |s|, ':');
    var y := e[1..] + sb;
    assert e + sb == [':'] + y;
    ScanColonFirst(y);
  }
}
