/** How command lines are spelled: the parser reads a line whatever its white space, and undoes a printer. */
module Spelling {
  import opened Grammar

  // ----- spelling

  function TokenText(tok: Token): string {
    match tok
    case End => ""
    case Sym(c) => if c == '+' then ">>" else [c]
    case Word(w) => w
  }

  /** The characters of the source's table of white space. */
  predicate IsBlank(c: char) {
    c in {' ', '\t', '\r', '\n', '\U{000B}'}
  }

  predicate IsWord(w: string) {
    w != "" && forall c :: c in w ==> !IsBlank(c) && c !in {'<', '|', '>', '&', ';', '(', ')', '\0'}
  }

  predicate GoodToken(tok: Token) {
    match tok
    case End => false
    case Sym(c) => c in {'<', '|', '>', '+', '&', ';', '(', ')'}
    case Word(w) => IsWord(w)
  }

  /** Tokens with a gap before each and one after the last. */
  function Spelled(ts: seq<Token>, gaps: seq<string>): string
    requires |gaps| == |ts| + 1
  {
    if ts == [] then gaps[0] else gaps[0] + (TokenText(ts[0]) + Spelled(ts[1..], gaps[1..]))
  }

  predicate IsGap(g: string) {
    forall c :: c in g ==> IsBlank(c)
  }

  /** Token `b` may follow `a` without a gap. */
  predicate MayTouch(a: Token, b: Token) {
    !(a.Word? && b.Word?) && !(a == Sym('>') && (b == Sym('>') || b == Sym('+')))
  }

  /** Gaps are white space, of any kind and length, and may be left out where tokens do not run together. */
  predicate WellSpaced(ts: seq<Token>, gaps: seq<string>) {
    && |gaps| == |ts| + 1 && (forall i :: 0 <= i < |gaps| ==> IsGap(gaps[i]))
    && forall i :: 0 < i < |ts| && gaps[i] == "" ==> MayTouch(ts[i - 1], ts[i])
  }

  predicate GoodTokens(ts: seq<Token>) {
    forall i :: 0 <= i < |ts| ==> GoodToken(ts[i])
  }

  lemma {:induction false} SkipGap(g: string, s: string)
    requires IsGap(g)
    ensures Skip(g + s) == Skip(s)
    decreases |g|
  {
    if g == "" {
      assert g + s == s;
    } else {
      assert g[0] in g && (g + s)[1..] == g[1..] + s;
      SkipGap(g[1..], s);
    }
  }

  lemma {:induction false} WordLenOf(w: string, k: string)
    requires (forall c :: c in w ==> IsWordChar(c)) && (k == "" || IsWhite(k[0]) || IsSymbol(k[0]))
    ensures WordLen(w + k) == |w|
  {
    if w == "" {
      assert w + k == k;
    } else {
      assert (w + k)[1..] == w[1..] + k;
      assert w[0] in w;
      WordLenOf(w[1..], k);
    }
  }

  /** How the rest of a text may start after a token. */
  predicate MayFollow(tok: Token, s: string) {
    s == "" || (if tok.Word? then IsWhite(s[0]) || IsSymbol(s[0]) else tok == Sym('>') ==> s[0] != '>')
  }

  lemma NextSpelled(tok: Token, s: string)
    requires GoodToken(tok) && MayFollow(tok, s)
    ensures Next(TokenText(tok) + s) == (tok, Skip(s))
  {
    var t := TokenText(tok) + s;
    assert t[|TokenText(tok)|..] == s && t[..|TokenText(tok)|] == TokenText(tok);
    if tok.Word? {
      assert tok.text[0] in tok.text;
      WordLenOf(tok.text, s);
    }
    SkipSolid(t);
  }

  lemma SpelledFollows(ts: seq<Token>, gaps: seq<string>)
    requires ts != [] && GoodTokens(ts) && WellSpaced(ts, gaps)
    ensures MayFollow(ts[0], Spelled(ts[1..], gaps[1..]))
  {
    var s := Spelled(ts[1..], gaps[1..]);
    if gaps[1] != "" {
      assert gaps[1][0] in gaps[1] && s[0] == gaps[1][0];
    } else if |ts| > 1 {
      assert MayTouch(ts[0], ts[1]) && GoodToken(ts[1]);
      assert s == TokenText(ts[1]) + Spelled(ts[2..], gaps[2..]);
      if ts[1].Word? {
        assert ts[1].text[0] in ts[1].text;
      }
    }
  }

  lemma WellSpacedRest(ts: seq<Token>, gaps: seq<string>)
    requires ts != [] && WellSpaced(ts, gaps)
    ensures WellSpaced(ts[1..], gaps[1..])
  {
    forall i | 0 < i < |ts| - 1 && gaps[1..][i] == ""
      ensures MayTouch(ts[1..][i - 1], ts[1..][i])
    {
      assert MayTouch(ts[i + 1 - 1], ts[i + 1]);
    }
  }

  /** However tokens are spelled, they are what the parser sees. */
  lemma {:induction false} LexSpelled(ts: seq<Token>, gaps: seq<string>)
    requires GoodTokens(ts) && WellSpaced(ts, gaps)
    ensures Lex(Spelled(ts, gaps)) == ts
    decreases |ts|
  {
    hide TokenText, MayTouch;
    var s := Spelled(ts, gaps);
    if ts == [] {
      SkipGap(s, "");
      assert s + "" == s;
    } else {
      var rest := Spelled(ts[1..], gaps[1..]);
      SkipGap(gaps[0], TokenText(ts[0]) + rest);
      SpelledFollows(ts, gaps);
      NextSpelled(ts[0], rest);
      WellSpacedRest(ts, gaps);
      LexSpelled(ts[1..], gaps[1..]);
      LexSkip(rest);
      LexSkip(s);
      LexSkip(TokenText(ts[0]) + rest);
      assert Lex(TokenText(ts[0]) + rest) == [ts[0]] + Lex(Skip(rest));
    }
  }

  /** A line is read in any spelling: with `>` or `>>`, with redirections before, between and after the words, and
      with any white space. */
  lemma ReadsAnySpelling(l: Line, gaps: seq<string>)
    requires LineOk(l) && GoodTokens(LineTokens(l)) && WellSpaced(LineTokens(l), gaps)
    ensures ParseCmd(Spelled(LineTokens(l), gaps)) == Some(LineTree(l))
  {
    LexSpelled(LineTokens(l), gaps);
    ParsesExactly(Spelled(LineTokens(l), gaps), LineTree(l));
  }

  // ----- printing

  /** Trees with words of word characters, no more arguments than fit, and redirections of the first two descriptors. */
  predicate Good(t: Tree) {
    match t
    case Exec(args) => |args| < MAXARGS && forall w :: w in args ==> IsWord(w)
    case Redir(c, file, fd) => IsWord(file) && (fd == 0 || fd == 1) && Good(c)
    case Pipe(l, r) => Good(l) && Good(r)
    case List(l, r) => Good(l) && Good(r)
    case Back(c) => Good(c)
  }

  function Size(t: Tree): (n: nat)
    ensures n > 0
  {
    match t
    case Exec(_) => 1
    case Redir(c, _, _) => 1 + Size(c)
    case Pipe(l, r) => 1 + Size(l) + Size(r)
    case List(l, r) => 1 + Size(l) + Size(r)
    case Back(c) => 1 + Size(c)
  }

  /** The command under the redirections. */
  function Base(t: Tree): (b: Tree)
    ensures !b.Redir? && Size(b) <= Size(t) && (t.Redir? ==> Size(b) < Size(t)) && (!t.Redir? ==> b == t)
  {
    if t.Redir? then Base(t.cmd) else t
  }

  /** The redirections, the innermost first. */
  function RedirsOf(t: Tree): (rs: seq<Item>)
    ensures OnlyRedirects(rs)
  {
    if t.Redir? then RedirsOf(t.cmd) + [Redirect(if t.fd == 1 then Out else In, t.file)] else []
  }

  /** The command under `m` ampersands, and how many there are. */
  function BackCore(t: Tree): (c: Tree)
    ensures !c.Back? && Size(c) <= Size(t) && (t.Back? ==> Size(c) < Size(t))
  {
    if t.Back? then BackCore(t.cmd) else t
  }

  function BackDepth(t: Tree): nat {
    if t.Back? then 1 + BackDepth(t.cmd) else 0
  }

  function ArgsOf(ws: seq<string>): seq<Item> {
    if ws == [] then [] else [Arg(ws[0])] + ArgsOf(ws[1..])
  }

  /** A line that stands for a tree, with parentheses only where they are needed. */
  function LineOf(t: Tree): Line
    decreases Size(t), 5
  {
    if t.Pipe? || t.List? || t.Back? then InnerOf(t) else Line(Pipeline(CommandOf(t), None), 0, None)
  }

  function InnerOf(t: Tree): Line
    requires t.Pipe? || t.List? || t.Back?
    decreases Size(t), 2
  {
    match t
    case Pipe(l, r) => Line(Pipeline(CommandOf(l), Some(PipelineOf(r))), 0, None)
    case Back(_) => Line(PipelineOf(BackCore(t)), BackDepth(t), None)
    case List(l, r) => Line(PipelineOf(BackCore(l)), BackDepth(l), Some(LineOf(r)))
  }

  function PipelineOf(t: Tree): Pipeline
    decreases Size(t), 4
  {
    if t.Pipe? then Pipeline(CommandOf(t.left), Some(PipelineOf(t.right))) else Pipeline(CommandOf(t), None)
  }

  function CommandOf(t: Tree): Command
    decreases Size(t), 3
  {
    var b := Base(t);
    if b.Exec? then Simple(ArgsOf(b.args) + RedirsOf(t)) else Block(InnerOf(b), RedirsOf(t))
  }

  /** The line of a tree, with one space between tokens. */
  function PrintLine(t: Tree): string {
    var ts := LineTokens(LineOf(t));
    Spelled(ts, seq(|ts| + 1, _ => " "))
  }

  lemma OneRedirect(c: Tree, i: Item)
    requires i.Redirect?
    ensures Under(c, [i]) == Redirected(c, i) && (IsWord(i.file) ==> GoodTokens(ItemsTokens([i])))
  {
    assert ItemsTokens([i]) == ItemTokens(i) + ItemsTokens([]);
  }

  lemma {:induction false} UnderRedirs(t: Tree)
    requires Good(t)
    ensures Under(Base(t), RedirsOf(t)) == t && Good(Base(t)) && GoodTokens(ItemsTokens(RedirsOf(t)))
    decreases t
  {
    hide ItemsTokens, Under, GoodTokens, IsWord;
    if t.Redir? {
      UnderRedirs(t.cmd);
      var last := Redirect(if t.fd == 1 then Out else In, t.file);
      OneRedirect(t.cmd, last);
      UnderTwice(Base(t.cmd), RedirsOf(t.cmd), [last]);
      TokensSplit(RedirsOf(t.cmd), [last]);
      GoodJoin(ItemsTokens(RedirsOf(t.cmd)), ItemsTokens([last]));
    } else {
      NoItems(t);
    }
  }

  lemma NoItems(c: Tree)
    ensures Under(c, []) == c && GoodTokens(ItemsTokens([]))
  {
  }

  lemma {:induction false} BacksOf(t: Tree)
    ensures Backs(BackCore(t), BackDepth(t)) == t && (Good(t) ==> Good(BackCore(t)))
  {
    if t.Back? {
      BacksOf(t.cmd);
    }
  }

  lemma {:induction false} ArgsOfWords(ws: seq<string>)
    ensures Words(ArgsOf(ws)) == ws && Redirects(ArgsOf(ws)) == [] && |ItemsTokens(ArgsOf(ws))| == |ws|
    ensures forall i :: 0 <= i < |ws| ==> ItemsTokens(ArgsOf(ws))[i] == Word(ws[i])
  {
    if ws != [] {
      ArgsOfWords(ws[1..]);
      assert ItemsTokens(ArgsOf(ws)) == [Word(ws[0])] + ItemsTokens(ArgsOf(ws[1..]));
    }
  }

  /** A line with these words stands for the tree. */
  predicate Stands(l: Line, t: Tree) {
    LineOk(l) && LineTree(l) == t && GoodTokens(LineTokens(l))
  }

  lemma GoodJoin(a: seq<Token>, b: seq<Token>)
    ensures GoodTokens(a + b) <==> GoodTokens(a) && GoodTokens(b)
  {
    var c := a + b;
    assert forall i :: 0 <= i < |a| ==> c[i] == a[i];
    assert forall i :: 0 <= i < |b| ==> c[|a| + i] == b[i];
  }

  lemma GoodLine(l: Line)
    ensures GoodTokens(LineTokens(l)) <==>
              GoodTokens(PipelineTokens(l.head)) && (l.rest.Some? ==> GoodTokens(LineTokens(l.rest.value)))
  {
    hide PipelineTokens, GoodToken;
    var amps := Ampersands(l.amps);
    assert GoodTokens(amps) && GoodTokens([Sym(';')]) by { SymbolsAreGood(); }
    GoodJoin(PipelineTokens(l.head), amps);
    if l.rest.Some? {
      GoodJoin([Sym(';')], LineTokens(l.rest.value));
      GoodJoin(PipelineTokens(l.head) + amps, [Sym(';')] + LineTokens(l.rest.value));
    } else {
      assert PipelineTokens(l.head) + amps + [] == PipelineTokens(l.head) + amps;
    }
  }

  lemma SymbolsAreGood()
    ensures forall c :: c in {'&', ';', '|', '(', ')'} ==> GoodToken(Sym(c))
  {
  }

  lemma GoodPipeline(p: Pipeline)
    ensures GoodTokens(PipelineTokens(p)) <==>
              GoodTokens(CommandTokens(p.first)) && (p.rest.Some? ==> GoodTokens(PipelineTokens(p.rest.value)))
  {
    hide CommandTokens;
    if p.rest.Some? {
      GoodJoin([Sym('|')], PipelineTokens(p.rest.value));
      GoodJoin(CommandTokens(p.first), [Sym('|')] + PipelineTokens(p.rest.value));
      assert GoodTokens([Sym('|')]);
    } else {
      assert CommandTokens(p.first) + [] == CommandTokens(p.first);
    }
  }

  lemma GoodBlock(l: Line, rs: seq<Item>)
    ensures GoodTokens(CommandTokens(Block(l, rs))) <==> GoodTokens(LineTokens(l)) && GoodTokens(ItemsTokens(rs))
  {
    hide LineTokens, ItemsTokens;
    assert GoodTokens([Sym('(')]) && GoodTokens([Sym(')')]);
    GoodJoin([Sym('(')], LineTokens(l));
    GoodJoin([Sym('(')] + LineTokens(l), [Sym(')')]);
    GoodJoin([Sym('(')] + LineTokens(l) + [Sym(')')], ItemsTokens(rs));
  }

  lemma CommandStands(t: Tree)
    requires Good(t)
    ensures var c := CommandOf(t); CommandOk(c) && CommandTree(c) == t && GoodTokens(CommandTokens(c))
    decreases Size(t), 3
  {
    hide GoodTokens, ItemsTokens, LineTokens, LineTree, LineOk, Words, Redirects, Under;
    var b, rs := Base(t), RedirsOf(t);
    UnderRedirs(t);
    if b.Exec? {
      SimpleStands(b.args, rs);
    } else {
      InnerStands(b);
      GoodBlock(InnerOf(b), rs);
    }
  }

  lemma SimpleStands(ws: seq<string>, rs: seq<Item>)
    requires |ws| < MAXARGS && (forall w :: w in ws ==> IsWord(w)) && OnlyRedirects(rs) && GoodTokens(ItemsTokens(rs))
    ensures var items := ArgsOf(ws) + rs;
      && Words(items) == ws && Redirects(items) == rs && GoodTokens(ItemsTokens(items))
  {
    ArgsOfWords(ws);
    hide ItemsTokens, Words, Redirects;
    OnlyRedirectsAre(rs);
    TokensSplit(ArgsOf(ws), rs);
    WordsSplit(ArgsOf(ws), rs);
    RedirectsSplit(ArgsOf(ws), rs);
    assert ws + [] == ws && [] + rs == rs;
    assert forall i :: 0 <= i < |ws| ==> ws[i] in ws;
    GoodJoin(ItemsTokens(ArgsOf(ws)), ItemsTokens(rs));
  }

  lemma PipelineStands(t: Tree)
    requires Good(t)
    ensures var p := PipelineOf(t); PipelineOk(p) && PipelineTree(p) == t && GoodTokens(PipelineTokens(p))
    decreases Size(t), 4
  {
    hide GoodTokens, CommandTokens, CommandTree, CommandOk;
    GoodPipeline(PipelineOf(t));
    if t.Pipe? {
      CommandStands(t.left);
      PipelineStands(t.right);
    } else {
      CommandStands(t);
    }
  }

  /** A pipeline alone on a line. */
  lemma LineAlone(p: Pipeline)
    ensures var l := Line(p, 0, None);
      LineTokens(l) == PipelineTokens(p) && (PipelineOk(p) ==> LineOk(l) && LineTree(l) == PipelineTree(p))
  {
    hide PipelineOk, PipelineTree, PipelineTokens;
    assert PipelineTokens(p) + Ampersands(0) + [] == PipelineTokens(p);
  }

  /** A command alone in a pipeline. */
  lemma PipelineAlone(c: Command)
    ensures var p := Pipeline(c, None);
      PipelineTokens(p) == CommandTokens(c) && (CommandOk(c) ==> PipelineOk(p) && PipelineTree(p) == CommandTree(c))
  {
    hide CommandOk, CommandTree, CommandTokens;
    assert CommandTokens(c) + [] == CommandTokens(c);
  }

  lemma Piped(c: Command, p: Pipeline)
    requires CommandOk(c) && PipelineOk(p)
    ensures var q := Pipeline(c, Some(p)); PipelineOk(q) && PipelineTree(q) == Pipe(CommandTree(c), PipelineTree(p))
  {
    hide CommandOk, CommandTree;
  }

  lemma InnerStands(t: Tree)
    requires Good(t) && (t.Pipe? || t.List? || t.Back?)
    ensures Stands(InnerOf(t), t)
    decreases Size(t), 2
  {
    hide GoodTokens, CommandTokens, CommandTree, CommandOk, LineTokens, PipelineTokens;
    GoodLine(InnerOf(t));
    match t
    case Pipe(l, r) =>
      CommandStands(l);
      PipelineStands(r);
      GoodPipeline(InnerOf(t).head);
      Piped(CommandOf(l), PipelineOf(r));
      LineAlone(InnerOf(t).head);
    case Back(_) =>
      BacksOf(t);
      PipelineStands(BackCore(t));
    case List(l, r) =>
      BacksOf(l);
      PipelineStands(BackCore(l));
      LineStands(r);
  }

  lemma LineStands(t: Tree)
    requires Good(t)
    ensures Stands(LineOf(t), t)
    decreases Size(t), 5
  {
    hide GoodTokens, CommandTokens, CommandTree, CommandOk, LineTokens, PipelineTokens;
    GoodLine(LineOf(t));
    if t.Pipe? || t.List? || t.Back? {
      InnerStands(t);
    } else {
      CommandStands(t);
      PipelineAlone(CommandOf(t));
      LineAlone(LineOf(t).head);
    }
  }

  lemma OneSpaceIsWell(ts: seq<Token>)
    ensures WellSpaced(ts, seq(|ts| + 1, _ => " "))
  {
  }

  /** Parsing undoes printing, for every tree of words with no more arguments than fit. */
  lemma ParseUndoesPrint(t: Tree)
    requires Good(t)
    ensures ParseCmd(PrintLine(t)) == Some(t)
  {
    hide LineOf, LineTokens, LineTree, LineOk, GoodTokens, Spelled, ParseCmd;
    LineStands(t);
    OneSpaceIsWell(LineTokens(LineOf(t)));
    ReadsAnySpelling(LineOf(t), seq(|LineTokens(LineOf(t))| + 1, _ => " "));
  }

  /** The line of some words. */
  function WordsLine(ws: seq<string>): Line {
    Line(Pipeline(Simple(ArgsOf(ws)), None), 0, None)
  }

  lemma WordsLineIs(ws: seq<string>)
    ensures LineTokens(WordsLine(ws)) == ItemsTokens(ArgsOf(ws))
    ensures |ws| < MAXARGS ==> LineOk(WordsLine(ws)) && LineTree(WordsLine(ws)) == Exec(ws)
  {
    ArgsOfWords(ws);
    hide ItemsTokens, ArgsOf, Words, Redirects;
    PipelineAlone(Simple(ArgsOf(ws)));
    LineAlone(WordsLine(ws).head);
  }

  lemma WordsAreGood(ws: seq<string>)
    requires forall w :: w in ws ==> IsWord(w)
    ensures var ts := ItemsTokens(ArgsOf(ws)); GoodTokens(ts) && AllWords(ts) && |ts| == |ws|
  {
    ArgsOfWords(ws);
    hide ItemsTokens, ArgsOf;
    assert forall i :: 0 <= i < |ws| ==> ws[i] in ws;
  }

  /** Words alone are read back exactly when there are fewer than MAXARGS of them, however they are spaced. */
  lemma ReadsBackExactly(ws: seq<string>, gaps: seq<string>)
    requires (forall w :: w in ws ==> IsWord(w)) && WellSpaced(ItemsTokens(ArgsOf(ws)), gaps)
    ensures ParseCmd(Spelled(ItemsTokens(ArgsOf(ws)), gaps)) == if |ws| < 10 then Some(Exec(ws)) else None
  {
    hide Spelled, ItemsTokens, ArgsOf, ParseCmd, Words, Redirects, LineOk, LineTree, LineTokens, GoodTokens;
    var ts := ItemsTokens(ArgsOf(ws));
    WordsAreGood(ws);
    WordsLineIs(ws);
    if |ws| < MAXARGS {
      ReadsAnySpelling(WordsLine(ws), gaps);
    } else if ParseCmd(Spelled(ts, gaps)).Some? {
      LexSpelled(ts, gaps);
      ParsesExactly(Spelled(ts, gaps), ParseCmd(Spelled(ts, gaps)).value);
      var m: Line :| LineOk(m) && LineTokens(m) == ts;
      FewWords(m);
    }
  }

  predicate AllWords(ts: seq<Token>) {
    forall i :: 0 <= i < |ts| ==> ts[i].Word?
  }

  lemma AllWordsJoin(a: seq<Token>, b: seq<Token>)
    ensures AllWords(a + b) <==> AllWords(a) && AllWords(b)
  {
    var c := a + b;
    assert forall i :: 0 <= i < |a| ==> c[i] == a[i];
    assert forall i :: 0 <= i < |b| ==> c[|a| + i] == b[i];
  }

  /** A line of words only is one simple command. */
  lemma FewWords(l: Line)
    requires LineOk(l) && AllWords(LineTokens(l))
    ensures |LineTokens(l)| < MAXARGS
  {
    hide CommandTokens, ItemsTokens, Words, AllWords;
    var p, c, amps := l.head, l.head.first, Ampersands(l.amps);
    var more := match l.rest case None => [] case Some(m) => [Sym(';')] + LineTokens(m);
    var pipes := match p.rest case None => [] case Some(q) => [Sym('|')] + PipelineTokens(q);
    AllWordsJoin(PipelineTokens(p) + amps, more);
    AllWordsJoin(PipelineTokens(p), amps);
    AllWordsJoin(CommandTokens(c), pipes);
    NoSymbol(more);
    NoSymbol(pipes);
    NoSymbol(amps);
    OneCommand(c);
  }

  lemma NoSymbol(ts: seq<Token>)
    requires AllWords(ts)
    ensures ts != [] ==> ts[0].Word?
  {
  }

  lemma OneCommand(c: Command)
    requires CommandOk(c) && AllWords(CommandTokens(c))
    ensures |CommandTokens(c)| < MAXARGS
  {
    NoSymbol(CommandTokens(c));
    if c.Simple? {
      WordsOnly(c.items);
    }
  }

  lemma {:induction false} WordsOnly(items: seq<Item>)
    requires AllWords(ItemsTokens(items))
    ensures |ItemsTokens(items)| == |Words(items)|
  {
    if items != [] {
      hide AllWords;
      AllWordsJoin(ItemTokens(items[0]), ItemsTokens(items[1..]));
      NoSymbol(ItemTokens(items[0]));
      WordsOnly(items[1..]);
    }
  }
}
