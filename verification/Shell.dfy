/** The parser of `sh.c` on its input buffer: a cursor that moves, and commands whose words are stretches of the buffer.

The input is the text before its NUL; reading at its end reads the NUL. The text holds no other, because `parsecmd` ends
it where `strlen` does. A panic is the result `None`.
 */
module Shell {
  import opened Grammar

  const O_RDONLY := 0x000
  const O_WRONLY := 0x001
  const O_CREATE := 0x200

  /** A word as the parser stores it: where it starts, and the place just after it. */
  datatype Span = Span(start: nat, end: nat)

  datatype Cmd =
    | ExecCmd(argv: seq<Span>)
    | RedirCmd(cmd: Cmd, file: Span, mode: int, fd: int)
    | PipeCmd(left: Cmd, right: Cmd)
    | ListCmd(left: Cmd, right: Cmd)
    | BackCmd(cmd: Cmd)

  function TextOf(s: string, w: Span): string {
    if w.start <= w.end <= |s| then s[w.start..w.end] else ""
  }

  function TextsOf(s: string, ws: seq<Span>): (r: seq<string>)
    ensures |r| == |ws| && forall k: nat :: k < |ws| ==> r[k] == TextOf(s, ws[k])
  {
    seq(|ws|, k requires 0 <= k < |ws| => TextOf(s, ws[k]))
  }

  /** The command a parsed one stands for. */
  function TreeOf(s: string, c: Cmd): Tree {
    match c
    case ExecCmd(argv) => Exec(TextsOf(s, argv))
    case RedirCmd(d, file, _, fd) => Redir(TreeOf(s, d), TextOf(s, file), fd)
    case PipeCmd(l, r) => Pipe(TreeOf(s, l), TreeOf(s, r))
    case ListCmd(l, r) => List(TreeOf(s, l), TreeOf(s, r))
    case BackCmd(d) => Back(TreeOf(s, d))
  }

  predicate NoNul(s: string) {
    forall k: nat :: k < |s| ==> s[k] != '\0'
  }

  function At(s: string, p: nat): char {
    if p < |s| then s[p] else '\0'
  }

  /** A stretch of word characters that goes on as far as it can. */
  predicate IsToken(s: string, w: Span) {
    && w.start < w.end <= |s| && !IsWordChar(At(s, w.end))
    && forall k: nat :: w.start <= k < w.end ==> IsWordChar(s[k])
  }

  predicate WordsOk(s: string, c: Cmd) {
    match c
    case ExecCmd(argv) => forall k: nat :: k < |argv| ==> IsToken(s, argv[k])
    case RedirCmd(d, file, mode, fd) =>
      && WordsOk(s, d) && IsToken(s, file)
      && ((fd == 0 && mode == 0) || (fd == 1 && mode == 0x201))
    case PipeCmd(l, r) => WordsOk(s, l) && WordsOk(s, r)
    case ListCmd(l, r) => WordsOk(s, l) && WordsOk(s, r)
    case BackCmd(d) => WordsOk(s, d)
  }

  // ----- the cursor

  method SkipWhite(s: string, p: nat) returns (b: nat)
    requires p <= |s|
    ensures p <= b <= |s| && Skip(s[p..]) == s[b..] && !IsWhite(At(s, b))
  {
    b := p;
    while b < |s| && IsWhite(s[b])
      invariant p <= b <= |s| && Skip(s[p..]) == Skip(s[b..])
    {
      assert s[b..][1..] == s[b + 1..];
      b := b + 1;
    }
  }

  /** What `gettoken` returns for a token. */
  function TokenIs(tok: char, text: string): Token {
    if tok == '\0' then End else if tok == 'a' then Word(text) else Sym(tok)
  }

  /** The end of a word. */
  method WordEnd(s: string, b: nat) returns (e: nat)
    requires b <= |s| && NoNul(s)
    ensures b <= e <= |s| && WordLen(s[b..]) == e - b && !IsWordChar(At(s, e))
    ensures forall k: nat :: b <= k < e ==> IsWordChar(s[k])
  {
    e := b;
    while e < |s| && !IsWhite(s[e]) && !IsSymbol(s[e])
      invariant b <= e <= |s| && WordLen(s[b..]) == e - b + WordLen(s[e..])
      invariant forall k: nat :: b <= k < e ==> IsWordChar(s[k])
    {
      assert s[e..][1..] == s[e + 1..];
      e := e + 1;
    }
  }

  /** `gettoken` */
  method Gettoken(s: string, p: nat) returns (tok: char, q: nat, eq: nat, p': nat)
    requires p <= |s| && NoNul(s)
    ensures p <= q <= eq <= p' <= |s| && (tok != '\0' ==> p < p')
    ensures Next(s[p..]) == (TokenIs(tok, TextOf(s, Span(q, eq))), s[p'..])
    ensures tok == 'a' ==> IsToken(s, Span(q, eq))
  {
    hide Skip, WordLen;
    q := SkipWhite(s, p);
    eq := q;
    tok := At(s, q);
    ghost var t := s[q..];
    if tok == '\0' {
      p' := q;
      return;
    }
    if tok == '>' {
      eq := eq + 1;
      if At(s, eq) == '>' {
        tok := '+';
        eq := eq + 1;
        assert t[1] == '>' && t[2..] == s[eq..];
      } else {
        assert |t| > 1 ==> t[1] == s[eq];
        assert t[1..] == s[eq..];
      }
    } else if IsSymbol(tok) {
      eq := eq + 1;
      assert t[1..] == s[eq..];
    } else {
      tok := 'a';
      eq := WordEnd(s, q);
      WordIsLong(t);
      assert t[..eq - q] == s[q..eq] && t[eq - q..] == s[eq..];
    }
    p' := SkipWhite(s, eq);
  }

  /** `peek` */
  method PeekAt(s: string, p: nat, toks: set<char>) returns (r: bool, p': nat)
    requires p <= |s| && NoNul(s) && '\0' !in toks
    ensures p <= p' <= |s| && s[p'..] == Skip(s[p..]) && (r <==> Peek(s[p..], toks))
    ensures Skip(s[p'..]) == s[p'..]
  {
    p' := SkipWhite(s, p);
    r := At(s, p') != '\0' && At(s, p') in toks;
    SkipSolid(s[p'..]);
  }

  /** Skipping white space first makes no difference to any part of the grammar. */
  lemma SkipFirst(s: string)
    ensures Next(Skip(s)) == Next(s) && Skip(Skip(s)) == Skip(s)
    ensures forall toks :: Peek(Skip(s), toks) <==> Peek(s, toks)
  {
    SkipSolid(Skip(s));
  }

  lemma SkipFirstParse(s: string, c: Tree, argc: nat)
    ensures Redirs(c, Skip(s)) == Redirs(c, s) && Args(c, argc, Skip(s)) == Args(c, argc, s)
    ensures Amps(c, Skip(s)) == Amps(c, s) &&
              (Peek(s, {'('}) ==> Peek(Skip(s), {'('}) && ParseBlock(Skip(s)) == ParseBlock(s))
  {
    SkipFirst(s);
    hide Skip, Next, Peek;
  }

  // ----- the parser

  /** What a parser method returns, against the grammar: the command stands for the tree, and its words are tokens. */
  ghost predicate Parsed(s: string, g: Option<(Tree, string)>, r: Option<Cmd>, p: nat, p': nat) {
    && (r == None <==> g == None)
    && (r.Some? ==> p <= p' <= |s| && WordsOk(s, r.value) && g == Some((TreeOf(s, r.value), s[p'..])))
  }

  method Parseredirs(s: string, c: Cmd, p: nat) returns (r: Option<Cmd>, p': nat)
    requires p <= |s| && NoNul(s) && WordsOk(s, c)
    ensures Parsed(s, Redirs(TreeOf(s, c), s[p..]), r, p, p')
  {
    hide Next, Peek, Skip;
    var cur := c;
    p' := p;
    var more;
    while true
      invariant p <= p' <= |s| && WordsOk(s, cur) && Redirs(TreeOf(s, c), s[p..]) == Redirs(TreeOf(s, cur), s[p'..])
      decreases |s| - p'
    {
      ghost var here := s[p'..];
      SkipFirst(here);
      SkipFirstParse(here, TreeOf(s, cur), 0);
      more, p' := PeekAt(s, p', {'<', '>'});
      if !more {
        break;
      }
      var tok, q, eq, q2, eq2, tok2;
      tok, q, eq, p' := Gettoken(s, p');
      RedirToken(here, tok, TextOf(s, Span(q, eq)));
      tok2, q2, eq2, p' := Gettoken(s, p');
      if tok2 != 'a' {
        return None, p';
      }
      var file := Span(q2, eq2);
      cur := if tok == '<' then RedirCmd(cur, file, O_RDONLY, 0) else RedirCmd(cur, file, O_WRONLY + O_CREATE, 1);
    }
    return Some(cur), p';
  }

  lemma RedirToken(s: string, tok: char, text: string)
    requires Peek(s, {'<', '>'}) && Next(s).0 == TokenIs(tok, text)
    ensures tok == '<' || tok == '>' || tok == '+'
  {
  }

  /** `cmd->argv[argc] = q`: the simple command is the one under the redirections read so far. */
  function AddArgv(c: Cmd, w: Span): Cmd {
    match c
    case ExecCmd(argv) => ExecCmd(argv + [w])
    case RedirCmd(d, file, mode, fd) => RedirCmd(AddArgv(d, w), file, mode, fd)
    case _ => c
  }

  lemma {:induction false} AddArgvIs(s: string, c: Cmd, w: Span)
    requires WordsOk(s, c) && IsToken(s, w)
    ensures WordsOk(s, AddArgv(c, w)) && TreeOf(s, AddArgv(c, w)) == AddArg(TreeOf(s, c), TextOf(s, w))
  {
    match c
    case ExecCmd(argv) =>
      assert TextsOf(s, argv + [w]) == TextsOf(s, argv) + [TextOf(s, w)];
    case RedirCmd(d, _, _, _) => AddArgvIs(s, d, w);
    case _ =>
  }

  /** The loop of `parseexec` over the arguments. */
  method Parseargs(s: string, c: Cmd, p: nat) returns (r: Option<Cmd>, p': nat)
    requires p <= |s| && NoNul(s) && WordsOk(s, c)
    ensures Parsed(s, Args(TreeOf(s, c), 0, s[p..]), r, p, p')
  {
    hide Next, Peek, Skip, Redirs, AddArg, AddArgv, WordsOk, TreeOf, IsToken;
    var cur, argc := c, 0;
    p' := p;
    while true
      invariant p <= p' <= |s| && WordsOk(s, cur)
      invariant Args(TreeOf(s, c), 0, s[p..]) == Args(TreeOf(s, cur), argc, s[p'..])
      decreases |s| - p'
    {
      ghost var here := s[p'..];
      SkipFirst(here);
      SkipFirstParse(here, TreeOf(s, cur), argc);
      var stop;
      stop, p' := PeekAt(s, p', {'|', ')', '&', ';'});
      if stop {
        break;
      }
      var tok, q, eq;
      tok, q, eq, p' := Gettoken(s, p');
      if tok == '\0' {
        break;
      }
      if tok != 'a' {
        return None, p';
      }
      AddArgvIs(s, cur, Span(q, eq));
      cur := AddArgv(cur, Span(q, eq));
      argc := argc + 1;
      if argc >= MAXARGS {
        return None, p';
      }
      var more;
      more, p' := Parseredirs(s, cur, p');
      if more == None {
        return None, p';
      }
      cur := more.value;
    }
    return Some(cur), p';
  }

  method Parseexec(s: string, p: nat) returns (r: Option<Cmd>, p': nat)
    requires p <= |s| && NoNul(s)
    ensures Parsed(s, ParseExec(s[p..]), r, p, p')
    decreases |s| - p, 1
  {
    hide Next, Peek, Skip, Redirs, Args, ParseBlock;
    var block;
    ghost var here := s[p..];
    block, p' := PeekAt(s, p, {'('});
    SkipFirst(here);
    SkipFirstParse(here, Exec([]), 0);
    if block {
      r, p' := Parseblock(s, p');
      return;
    }
    assert TextsOf(s, []) == [];
    r, p' := Parseredirs(s, ExecCmd([]), p');
    if r == None {
      return;
    }
    r, p' := Parseargs(s, r.value, p');
  }

  method Parseblock(s: string, p: nat) returns (r: Option<Cmd>, p': nat)
    requires p <= |s| && NoNul(s) && Peek(s[p..], {'('})
    ensures Parsed(s, ParseBlock(s[p..]), r, p, p')
    decreases |s| - p, 0
  {
    hide Next, Peek, Skip, Redirs, ParseLine;
    ghost var here := s[p..];
    SkipFirst(here);
    var block, close, tok, q, eq;
    block, p' := PeekAt(s, p, {'('});
    tok, q, eq, p' := Gettoken(s, p');
    PeekedSymbol(here, '(', tok, TextOf(s, Span(q, eq)));
    r, p' := Parseline(s, p');
    if r == None {
      return;
    }
    ghost var rest := s[p'..];
    SkipFirst(rest);
    close, p' := PeekAt(s, p', {')'});
    if !close {
      return None, p';
    }
    tok, q, eq, p' := Gettoken(s, p');
    r, p' := Parseredirs(s, r.value, p');
  }

  /** A symbol that was peeked at is the token, so the cursor moves. */
  lemma PeekedSymbol(s: string, c: char, tok: char, text: string)
    requires Peek(s, {c}) && c != '\0' && Next(s).0 == TokenIs(tok, text)
    ensures tok != '\0'
  {
  }

  method Parsepipe(s: string, p: nat) returns (r: Option<Cmd>, p': nat)
    requires p <= |s| && NoNul(s)
    ensures Parsed(s, ParsePipe(s[p..]), r, p, p')
    decreases |s| - p, 2
  {
    hide Next, Peek, Skip, ParseExec;
    r, p' := Parseexec(s, p);
    if r == None {
      return;
    }
    var l := r.value;
    ghost var rest := s[p'..];
    SkipFirst(rest);
    var pipe;
    pipe, p' := PeekAt(s, p', {'|'});
    if pipe {
      var tok, q, eq;
      tok, q, eq, p' := Gettoken(s, p');
      PeekedSymbol(rest, '|', tok, TextOf(s, Span(q, eq)));
      r, p' := Parsepipe(s, p');
      if r.Some? {
        r := Some(PipeCmd(l, r.value));
      }
    }
  }

  /** The loop of `parseline` over the ampersands. */
  method Parseamps(s: string, c: Cmd, p: nat) returns (r: Cmd, p': nat)
    requires p <= |s| && NoNul(s) && WordsOk(s, c)
    ensures p <= p' <= |s| && WordsOk(s, r) && Amps(TreeOf(s, c), s[p..]) == (TreeOf(s, r), s[p'..])
  {
    hide Next, Peek, Skip;
    r, p' := c, p;
    while true
      invariant p <= p' <= |s| && WordsOk(s, r) && Amps(TreeOf(s, c), s[p..]) == Amps(TreeOf(s, r), s[p'..])
      decreases |s| - p'
    {
      ghost var here := s[p'..];
      SkipFirst(here);
      var amp;
      amp, p' := PeekAt(s, p', {'&'});
      if !amp {
        break;
      }
      var tok, q, eq;
      tok, q, eq, p' := Gettoken(s, p');
      PeekedSymbol(here, '&', tok, TextOf(s, Span(q, eq)));
      r := BackCmd(r);
    }
  }

  method Parseline(s: string, p: nat) returns (r: Option<Cmd>, p': nat)
    requires p <= |s| && NoNul(s)
    ensures Parsed(s, ParseLine(s[p..]), r, p, p')
    decreases |s| - p, 3
  {
    hide Next, Peek, Skip, ParsePipe, Amps;
    r, p' := Parsepipe(s, p);
    if r == None {
      return;
    }
    var l;
    l, p' := Parseamps(s, r.value, p');
    r := Some(l);
    ghost var rest := s[p'..];
    SkipFirst(rest);
    var semi;
    semi, p' := PeekAt(s, p', {';'});
    if semi {
      var tok, q, eq;
      tok, q, eq, p' := Gettoken(s, p');
      PeekedSymbol(rest, ';', tok, TextOf(s, Span(q, eq)));
      r, p' := Parseline(s, p');
      if r.Some? {
        r := Some(ListCmd(l, r.value));
      }
    }
  }

  // ----- NUL termination

  /** Some word of the command ends at `j`. */
  predicate EndsAt(c: Cmd, j: nat) {
    match c
    case ExecCmd(argv) => exists k: nat :: k < |argv| && argv[k].end == j
    case RedirCmd(d, file, _, _) => EndsAt(d, j) || file.end == j
    case PipeCmd(l, r) => EndsAt(l, j) || EndsAt(r, j)
    case ListCmd(l, r) => EndsAt(l, j) || EndsAt(r, j)
    case BackCmd(d) => EndsAt(d, j)
  }

  /** `nulterminate` writes a NUL after every word, and changes nothing else. */
  method Nulterminate(buf: array<char>, s: string, c: Cmd)
    requires WordsOk(s, c) && buf.Length == |s| + 1
    modifies buf
    ensures forall j: nat :: j < buf.Length ==> buf[j] == if EndsAt(c, j) then '\0' else old(buf[j])
    decreases c
  {
    match c {
      case ExecCmd(argv) =>
        for i := 0 to |argv|
          invariant forall j: nat :: j < buf.Length ==>
                      buf[j] == if exists k: nat :: k < i && argv[k].end == j then '\0' else old(buf[j])
        {
          assert IsToken(s, argv[i]);
          buf[argv[i].end] := '\0';
        }
      case RedirCmd(d, file, _, _) =>
        Nulterminate(buf, s, d);
        buf[file.end] := '\0';
      case PipeCmd(l, r) =>
        Nulterminate(buf, s, l);
        Nulterminate(buf, s, r);
      case ListCmd(l, r) =>
        Nulterminate(buf, s, l);
        Nulterminate(buf, s, r);
      case BackCmd(d) =>
        Nulterminate(buf, s, d);
    }
  }

  /** The string that starts at place `i` of a buffer. */
  function CString(buf: seq<char>, i: nat): string
    requires i <= |buf|
    decreases |buf| - i
  {
    if i == |buf| || buf[i] == '\0' then "" else [buf[i]] + CString(buf, i + 1)
  }

  lemma {:induction false} CStringIs(buf: seq<char>, i: nat, e: nat)
    requires i <= e < |buf| && buf[e] == '\0' && forall k: nat :: i <= k < e ==> buf[k] != '\0'
    ensures CString(buf, i) == buf[i..e]
    decreases e - i
  {
    if i < e {
      CStringIs(buf, i + 1, e);
    }
  }

  lemma {:induction false} EndIsNoWordChar(s: string, c: Cmd, j: nat)
    requires WordsOk(s, c) && EndsAt(c, j)
    ensures j <= |s| && !IsWordChar(At(s, j))
  {
    match c
    case ExecCmd(argv) =>
      var k: nat :| k < |argv| && argv[k].end == j;
      assert IsToken(s, argv[k]);
    case RedirCmd(d, file, _, _) =>
      if file.end != j {
        EndIsNoWordChar(s, d, j);
      }
    case PipeCmd(l, r) => EndIsNoWordChar(s, if EndsAt(l, j) then l else r, j);
    case ListCmd(l, r) => EndIsNoWordChar(s, if EndsAt(l, j) then l else r, j);
    case BackCmd(d) => EndIsNoWordChar(s, d, j);
  }

  /** A word of the command. */
  predicate HasWord(c: Cmd, w: Span) {
    match c
    case ExecCmd(argv) => w in argv
    case RedirCmd(d, file, _, _) => HasWord(d, w) || file == w
    case PipeCmd(l, r) => HasWord(l, w) || HasWord(r, w)
    case ListCmd(l, r) => HasWord(l, w) || HasWord(r, w)
    case BackCmd(d) => HasWord(d, w)
  }

  lemma {:induction false} WordIsToken(s: string, c: Cmd, w: Span)
    requires WordsOk(s, c) && HasWord(c, w)
    ensures IsToken(s, w) && EndsAt(c, w.end)
  {
    match c
    case ExecCmd(argv) =>
      var k: nat :| k < |argv| && argv[k] == w;
    case RedirCmd(d, file, _, _) =>
      if file != w {
        WordIsToken(s, d, w);
      }
    case PipeCmd(l, r) => WordIsToken(s, if HasWord(l, w) then l else r, w);
    case ListCmd(l, r) => WordIsToken(s, if HasWord(l, w) then l else r, w);
    case BackCmd(d) => WordIsToken(s, d, w);
  }

  /** After it every stored word reads as exactly its token: no NUL fell inside another word. */
  lemma WordsReadBack(s: string, c: Cmd, buf: seq<char>, w: Span)
    requires WordsOk(s, c) && HasWord(c, w) && |buf| == |s| + 1
    requires forall j: nat :: j < |buf| ==> buf[j] == if EndsAt(c, j) then '\0' else At(s, j)
    ensures w.start < w.end <= |s| && CString(buf, w.start) == TextOf(s, w)
  {
    WordIsToken(s, c, w);
    forall k: nat | w.start <= k < w.end
      ensures buf[k] == s[k] != '\0'
    {
      if EndsAt(c, k) {
        EndIsNoWordChar(s, c, k);
      }
    }
    CStringIs(buf, w.start, w.end);
    assert buf[w.start..w.end] == s[w.start..w.end];
  }

  /** `parsecmd`: the command the grammar gives for the text, with every stored word a string of its own; a panic, which
  changes nothing, exactly when the grammar gives none. */
  method Parsecmd(buf: array<char>, n: nat) returns (r: Option<Cmd>)
    requires n + 1 == buf.Length && buf[n] == '\0' && NoNul(buf[..n])
    modifies buf
    ensures r == None <==> ParseCmd(old(buf[..n])) == None
    ensures r == None ==> buf[..] == old(buf[..])
    ensures r.Some? ==> ParseCmd(old(buf[..n])) == Some(TreeOf(old(buf[..n]), r.value))
    ensures r.Some? ==> forall w: Span :: HasWord(r.value, w) ==>
              w.start < w.end <= n && CString(buf[..], w.start) == old(buf[..n])[w.start..w.end]
  {
    hide ParseLine, Skip, Peek;
    var s := buf[..n];
    assert s[0..] == s;
    var p, more;
    r, p := Parseline(s, 0);
    if r == None {
      return;
    }
    more, p := PeekAt(s, p, {});
    if p != |s| {
      return None;
    }
    Nulterminate(buf, s, r.value);
    forall w: Span | HasWord(r.value, w)
      ensures w.start < w.end <= n && CString(buf[..], w.start) == s[w.start..w.end]
    {
      WordsReadBack(s, r.value, buf[..], w);
    }
  }
}
