/** The shell's command language: the parser of `sh.c` as functions of the input, the language by its tokens, and that
    the one accepts exactly the other.

A command that `panic("syntax")` and the like end is `None`. `>` and `>>` give the same command, as in the source.
 */
module Grammar {

  datatype Option<+T> = None | Some(value: T)

  const MAXARGS := 10

  datatype Tree =
    | Exec(args: seq<string>)
    | Redir(cmd: Tree, file: string, fd: int)
    | Pipe(left: Tree, right: Tree)
    | List(left: Tree, right: Tree)
    | Back(cmd: Tree)

  // ----- characters and tokens

  predicate IsWhite(c: char) {
    c == ' ' || c == '\t' || c == '\r' || c == '\n' || c == '\U{000B}'
  }

  predicate IsSymbol(c: char) {
    c == '<' || c == '|' || c == '>' || c == '&' || c == ';' || c == '(' || c == ')'
  }

  predicate IsWordChar(c: char) {
    !IsWhite(c) && !IsSymbol(c) && c != '\0'
  }

  function Skip(s: string): (r: string)
    ensures |r| <= |s| && Solid(r)
  {
    if s != "" && IsWhite(s[0]) then Skip(s[1..]) else s
  }

  /** No white space at the start. */
  predicate Solid(s: string) {
    s == "" || !IsWhite(s[0])
  }

  /** The length of the word at the start. */
  function WordLen(s: string): (n: nat)
    ensures n <= |s|
  {
    if s != "" && !IsWhite(s[0]) && !IsSymbol(s[0]) then 1 + WordLen(s[1..]) else 0
  }

  datatype Token = End | Sym(c: char) | Word(text: string)

  /** The next token, `+` for `>>`, and what follows it and the white space after it. */
  function Next(s: string): (r: (Token, string))
    ensures |r.1| <= |s| && (r.0 != End ==> |r.1| < |s|) && Solid(r.1)
  {
    var t := Skip(s);
    if t == "" then (End, "")
    else if t[0] == '>' && |t| > 1 && t[1] == '>' then (Sym('+'), Skip(t[2..]))
    else if IsSymbol(t[0]) then (Sym(t[0]), Skip(t[1..]))
    else
      WordIsLong(t);
      (Word(t[..WordLen(t)]), Skip(t[WordLen(t)..]))
  }

  lemma WordIsLong(t: string)
    requires t != "" && !IsWhite(t[0]) && !IsSymbol(t[0])
    ensures WordLen(t) > 0
  {
  }

  predicate Peek(s: string, toks: set<char>) {
    var t := Skip(s);
    t != "" && t[0] in toks
  }

  // ----- the grammar

  function Redirs(c: Tree, s: string): (r: Option<(Tree, string)>)
    ensures r.Some? ==> |r.value.1| <= |s| && Solid(r.value.1)
    decreases |s|
  {
    if Peek(s, {'<', '>'}) then
      var (tok, a) := Next(s);
      var (file, b) := Next(a);
      if !file.Word? then None else Redirs(Redir(c, file.text, if tok == Sym('<') then 0 else 1), b)
    else Some((c, Skip(s)))
  }

  /** The word goes to the simple command under the redirections. */
  function AddArg(c: Tree, w: string): Tree {
    match c
    case Exec(args) => Exec(args + [w])
    case Redir(d, file, fd) => Redir(AddArg(d, w), file, fd)
    case _ => c
  }

  function Args(c: Tree, argc: nat, s: string): (r: Option<(Tree, string)>)
    ensures r.Some? ==> |r.value.1| <= |s| && Solid(r.value.1)
    decreases |s|
  {
    if Peek(s, {'|', ')', '&', ';'}) then Some((c, Skip(s)))
    else
      var (tok, a) := Next(s);
      if tok == End then Some((c, a))
      else if !tok.Word? || argc + 1 >= MAXARGS then None
      else
        var r := Redirs(AddArg(c, tok.text), a);
        if r == None then None else Args(r.value.0, argc + 1, r.value.1)
  }

  function ParseExec(s: string): (r: Option<(Tree, string)>)
    ensures r.Some? ==> |r.value.1| <= |s| && Solid(r.value.1)
    decreases |s|, 1
  {
    if Peek(s, {'('}) then ParseBlock(s)
    else
      var r := Redirs(Exec([]), s);
      if r == None then None else Args(r.value.0, 0, r.value.1)
  }

  function ParseBlock(s: string): (r: Option<(Tree, string)>)
    requires Peek(s, {'('})
    ensures r.Some? ==> |r.value.1| <= |s| && Solid(r.value.1)
    decreases |s|, 0
  {
    var inner := ParseLine(Next(s).1);
    if inner == None then None
    else if !Peek(inner.value.1, {')'}) then None
    else Redirs(inner.value.0, Next(inner.value.1).1)
  }

  function ParsePipe(s: string): (r: Option<(Tree, string)>)
    ensures r.Some? ==> |r.value.1| <= |s| && Solid(r.value.1)
    decreases |s|, 2
  {
    var l := ParseExec(s);
    if l == None then None
    else if !Peek(l.value.1, {'|'}) then Some((l.value.0, Skip(l.value.1)))
    else
      var r := ParsePipe(Next(l.value.1).1);
      if r == None then None else Some((Pipe(l.value.0, r.value.0), r.value.1))
  }

  function Amps(c: Tree, s: string): (r: (Tree, string))
    ensures |r.1| <= |s| && Solid(r.1)
    decreases |s|
  {
    if Peek(s, {'&'}) then Amps(Back(c), Next(s).1) else (c, Skip(s))
  }

  function ParseLine(s: string): (r: Option<(Tree, string)>)
    ensures r.Some? ==> |r.value.1| <= |s| && Solid(r.value.1)
    decreases |s|, 3
  {
    var p := ParsePipe(s);
    if p == None then None
    else
      var (l, a) := Amps(p.value.0, p.value.1);
      if !Peek(a, {';'}) then Some((l, Skip(a)))
      else
        var r := ParseLine(Next(a).1);
        if r == None then None else Some((List(l, r.value.0), r.value.1))
  }

  /** The whole input is one line. */
  function ParseCmd(s: string): Option<Tree> {
    var r := ParseLine(s);
    if r == None || Skip(r.value.1) != "" then None else Some(r.value.0)
  }

  // ----- the language, by its tokens

  /** The tokens of a text. */
  function Lex(s: string): (ts: seq<Token>)
    decreases |s|
  {
    var (tok, rest) := Next(s);
    if tok == End then [] else [tok] + Lex(rest)
  }

  /** How a file is opened: `<`, `>` or `>>`. */
  datatype Op = In | Out | Append

  /** A part of a simple command. */
  datatype Item = Arg(word: string) | Redirect(op: Op, file: string)

  /** A line: pipelines, each with ampersands, between semicolons. */
  datatype Line = Line(head: Pipeline, amps: nat, rest: Option<Line>)

  datatype Pipeline = Pipeline(first: Command, rest: Option<Pipeline>)

  datatype Command = Simple(items: seq<Item>) | Block(inner: Line, redirs: seq<Item>)

  function ItemTokens(i: Item): seq<Token> {
    match i
    case Arg(w) => [Word(w)]
    case Redirect(op, file) => [match op case In => Sym('<') case Out => Sym('>') case Append => Sym('+'), Word(file)]
  }

  function ItemsTokens(items: seq<Item>): seq<Token> {
    if items == [] then [] else ItemTokens(items[0]) + ItemsTokens(items[1..])
  }

  function LineTokens(l: Line): seq<Token> {
    PipelineTokens(l.head) + Ampersands(l.amps) +
    match l.rest case None => [] case Some(more) => [Sym(';')] + LineTokens(more)
  }

  function Ampersands(n: nat): seq<Token> {
    seq(n, _ => Sym('&'))
  }

  function PipelineTokens(p: Pipeline): seq<Token> {
    CommandTokens(p.first) + match p.rest case None => [] case Some(more) => [Sym('|')] + PipelineTokens(more)
  }

  function CommandTokens(c: Command): seq<Token> {
    match c
    case Simple(items) => ItemsTokens(items)
    case Block(inner, redirs) => [Sym('(')] + LineTokens(inner) + [Sym(')')] + ItemsTokens(redirs)
  }

  function Words(items: seq<Item>): seq<string> {
    if items == [] then []
    else (if items[0].Arg? then [items[0].word] else []) + Words(items[1..])
  }

  function Redirects(items: seq<Item>): seq<Item> {
    if items == [] then []
    else (if items[0].Redirect? then [items[0]] else []) + Redirects(items[1..])
  }

  predicate OnlyRedirects(items: seq<Item>) {
    forall i :: 0 <= i < |items| ==> items[i].Redirect?
  }

  /** A command under redirections: the last one is outermost. */
  function Under(c: Tree, redirs: seq<Item>): Tree
    requires OnlyRedirects(redirs)
    decreases |redirs|
  {
    if redirs == [] then c else Under(Redirected(c, redirs[0]), redirs[1..])
  }

  /** `<` takes the place of descriptor 0, `>` and `>>` alike that of descriptor 1. */
  function Redirected(c: Tree, i: Item): Tree
    requires i.Redirect?
  {
    match i.op
    case In => Redir(c, i.file, 0)
    case Out => Redir(c, i.file, 1)
    case Append => Redir(c, i.file, 1)
  }

  /** The words of a simple command are its arguments wherever its redirections stand. */
  function CommandTree(c: Command): Tree
    requires CommandOk(c)
  {
    match c
    case Simple(items) =>
      RedirectsAre(items);
      Under(Exec(Words(items)), Redirects(items))
    case Block(inner, redirs) => Under(LineTree(inner), redirs)
  }

  function PipelineTree(p: Pipeline): Tree
    requires PipelineOk(p)
  {
    match p.rest
    case None => CommandTree(p.first)
    case Some(more) => Pipe(CommandTree(p.first), PipelineTree(more))
  }

  function LineTree(l: Line): Tree
    requires LineOk(l)
  {
    var head := Backs(PipelineTree(l.head), l.amps);
    match l.rest
    case None => head
    case Some(more) => List(head, LineTree(more))
  }

  /** A command with `n` ampersands. */
  function Backs(c: Tree, n: nat): Tree {
    if n == 0 then c else Back(Backs(c, n - 1))
  }

  /** A simple command has fewer than MAXARGS words, and only redirections follow a parenthesis. */
  predicate CommandOk(c: Command) {
    match c
    case Simple(items) => |Words(items)| < MAXARGS
    case Block(inner, redirs) => LineOk(inner) && OnlyRedirects(redirs)
  }

  predicate PipelineOk(p: Pipeline) {
    CommandOk(p.first) && match p.rest case None => true case Some(more) => PipelineOk(more)
  }

  predicate LineOk(l: Line) {
    PipelineOk(l.head) && match l.rest case None => true case Some(more) => LineOk(more)
  }

  lemma {:induction false} RedirectsAre(items: seq<Item>)
    ensures OnlyRedirects(Redirects(items))
  {
    if items != [] {
      RedirectsAre(items[1..]);
    }
  }

  // ----- the parser sees tokens only

  lemma SkipSolid(s: string)
    requires Solid(s)
    ensures Skip(s) == s
  {
  }

  lemma LexSkip(s: string)
    ensures Lex(Skip(s)) == Lex(s)
  {
    SkipSolid(Skip(s));
    assert Next(Skip(s)) == Next(s);
  }

  /** The symbol a text starts with, if it does. */
  predicate StartsWith(ts: seq<Token>, syms: set<char>) {
    ts != [] && ts[0].Sym? && ts[0].c in syms
  }

  lemma PeekIs(s: string)
    ensures Peek(s, {'<', '>'}) <==> StartsWith(Lex(s), {'<', '>', '+'})
    ensures Peek(s, {'|', ')', '&', ';'}) <==> StartsWith(Lex(s), {'|', ')', '&', ';'})
    ensures forall c: char :: c in {'(', ')', '|', '&', ';'} ==> (Peek(s, {c}) <==> StartsWith(Lex(s), {c}))
    ensures Skip(s) == "" <==> Lex(s) == []
  {
    var t := Skip(s);
    if t != "" && !IsSymbol(t[0]) {
      WordIsLong(t);
    }
  }

  lemma NextIs(s: string, tok: Token, k: seq<Token>)
    requires Lex(s) == [tok] + k
    ensures Next(s).0 == tok && tok != End && Lex(Next(s).1) == k && |Next(s).1| < |s|
  {
    assert Lex(s)[0] == tok && Lex(s)[1..] == k;
  }

  // ----- what is written is read

  lemma {:induction false} UnderTwice(c: Tree, a: seq<Item>, b: seq<Item>)
    requires OnlyRedirects(a) && OnlyRedirects(b)
    ensures OnlyRedirects(a + b) && Under(Under(c, a), b) == Under(c, a + b)
    decreases |a|
  {
    if a == [] {
      assert a + b == b;
    } else {
      assert (a + b)[1..] == a[1..] + b;
      UnderTwice(Redirected(c, a[0]), a[1..], b);
    }
  }

  lemma {:induction false} AddArgUnder(c: Tree, rs: seq<Item>, w: string)
    requires OnlyRedirects(rs)
    ensures AddArg(Under(c, rs), w) == Under(AddArg(c, w), rs)
    decreases |rs|
  {
    if rs != [] {
      AddArgUnder(Redirected(c, rs[0]), rs[1..], w);
    }
  }

  lemma OneRedirRead(c: Tree, i: Item, s: string, k: seq<Token>) returns (rest: string)
    requires i.Redirect? && Lex(s) == ItemTokens(i) + k
    ensures Lex(rest) == k && |rest| < |s| && Redirs(c, s) == Redirs(Redirected(c, i), rest)
  {
    hide Next, Peek, Lex;
    PeekIs(s);
    assert ItemTokens(i) + k == [ItemTokens(i)[0]] + ([Word(i.file)] + k);
    NextIs(s, ItemTokens(i)[0], [Word(i.file)] + k);
    NextIs(Next(s).1, Word(i.file), k);
    rest := Next(Next(s).1).1;
  }

  /** Redirections that end before `k`. */
  lemma {:induction false} RedirsRead(c: Tree, rs: seq<Item>, s: string, k: seq<Token>)
    requires OnlyRedirects(rs) && Lex(s) == ItemsTokens(rs) + k && !StartsWith(k, {'<', '>', '+'})
    ensures var r := Redirs(c, s); r.Some? && r.value.0 == Under(c, rs) && Lex(r.value.1) == k
    decreases |rs|
  {
    hide Next, Peek, Lex;
    if rs == [] {
      PeekIs(s);
      LexSkip(s);
      assert ItemsTokens(rs) + k == k;
    } else {
      var rest := ItemsTokens(rs[1..]) + k;
      assert ItemsTokens(rs) + k == ItemTokens(rs[0]) + rest;
      var s' := OneRedirRead(c, rs[0], s, rest);
      RedirsRead(Redirected(c, rs[0]), rs[1..], s', k);
    }
  }

  /** The number of redirections a list of parts starts with. */
  function Leading(items: seq<Item>): (n: nat)
    ensures n <= |items| && OnlyRedirects(items[..n]) && (n < |items| ==> items[n].Arg?)
  {
    if items == [] || items[0].Arg? then 0
    else
      var n := Leading(items[1..]);
      assert items[..n + 1] == [items[0]] + items[1..][..n];
      n + 1
  }

  lemma {:induction false} TokensSplit(a: seq<Item>, b: seq<Item>)
    ensures ItemsTokens(a + b) == ItemsTokens(a) + ItemsTokens(b)
    decreases |a|
  {
    hide ItemTokens;
    if a == [] {
      assert a + b == b;
    } else {
      TokensSplit(a[1..], b);
      assert (a + b)[1..] == a[1..] + b;
    }
  }

  lemma {:induction false} WordsSplit(a: seq<Item>, b: seq<Item>)
    ensures Words(a + b) == Words(a) + Words(b)
    decreases |a|
  {
    if a == [] {
      assert a + b == b;
    } else {
      WordsSplit(a[1..], b);
      assert (a + b)[1..] == a[1..] + b;
    }
  }

  lemma {:induction false} RedirectsSplit(a: seq<Item>, b: seq<Item>)
    ensures Redirects(a + b) == Redirects(a) + Redirects(b)
    decreases |a|
  {
    if a == [] {
      assert a + b == b;
    } else {
      RedirectsSplit(a[1..], b);
      assert (a + b)[1..] == a[1..] + b;
    }
  }

  lemma ItemsSplit(items: seq<Item>, n: nat)
    requires n <= |items|
    ensures ItemsTokens(items) == ItemsTokens(items[..n]) + ItemsTokens(items[n..])
    ensures Words(items) == Words(items[..n]) + Words(items[n..])
    ensures Redirects(items) == Redirects(items[..n]) + Redirects(items[n..])
  {
    hide *;
    assert items[..n] + items[n..] == items;
    TokensSplit(items[..n], items[n..]);
    WordsSplit(items[..n], items[n..]);
    RedirectsSplit(items[..n], items[n..]);
  }

  lemma {:induction false} OnlyRedirectsAre(rs: seq<Item>)
    requires OnlyRedirects(rs)
    ensures Words(rs) == [] && Redirects(rs) == rs
    ensures ItemsTokens(rs) != [] ==> StartsWith(ItemsTokens(rs), {'<', '>', '+'})
  {
    if rs != [] {
      OnlyRedirectsAre(rs[1..]);
    }
  }

  /** What ends a simple command. */
  predicate Ends(k: seq<Token>) {
    k == [] || StartsWith(k, {'|', ')', '&', ';'})
  }

  lemma OneArgRead(ws: seq<string>, rs: seq<Item>, w: string, s: string, k: seq<Token>) returns (rest: string)
    requires OnlyRedirects(rs) && Lex(s) == [Word(w)] + k && |ws| + 1 < MAXARGS
    ensures Lex(rest) == k && |rest| < |s|
    ensures Args(Under(Exec(ws), rs), |ws|, s) ==
              (var r := Redirs(Under(Exec(ws + [w]), rs), rest);
               if r == None then None else Args(r.value.0, |ws| + 1, r.value.1))
  {
    hide Next, Peek, Lex, Redirs;
    PeekIs(s);
    NextIs(s, Word(w), k);
    rest := Next(s).1;
    AddArgUnder(Exec(ws), rs, w);
  }

  /** The rest of a simple command, from an argument on. */
  lemma {:induction false} ArgsRead(ws: seq<string>, rs: seq<Item>, items: seq<Item>, s: string, k: seq<Token>)
    requires OnlyRedirects(rs) && Lex(s) == ItemsTokens(items) + k && Ends(k) && (items == [] || items[0].Arg?)
    requires |ws| + |Words(items)| < MAXARGS && OnlyRedirects(Redirects(items))
    ensures var r := Args(Under(Exec(ws), rs), |ws|, s);
      && OnlyRedirects(rs + Redirects(items)) && r.Some? && Lex(r.value.1) == k
      && r.value.0 == Under(Exec(ws + Words(items)), rs + Redirects(items))
    decreases |items|
  {
    hide Next, Peek, Lex, Args, Redirs, Under, ItemTokens;
    if items == [] {
      ArgsEnd(Under(Exec(ws), rs), |ws|, s, k);
      assert ItemsTokens(items) + k == k && ws + Words(items) == ws && rs + Redirects(items) == rs;
    } else {
      var w, more := items[0].word, items[1..];
      var n := Leading(more);
      var last := more[n..];
      var k1 := ItemsTokens(last) + k;
      FirstArg(items, n, k);
      var s0 := OneArgRead(ws, rs, w, s, ItemsTokens(more[..n]) + k1);
      RedirectsFollow(last, k);
      RedirsRead(Under(Exec(ws + [w]), rs), more[..n], s0, k1);
      UnderTwice(Exec(ws + [w]), rs, more[..n]);
      var s1 := Redirs(Under(Exec(ws + [w]), rs), s0).value.1;
      RedirectsAre(last);
      ArgsRead(ws + [w], rs + more[..n], last, s1, k);
      assert ws + [w] + Words(last) == ws + Words(items);
      assert rs + more[..n] + Redirects(last) == rs + Redirects(items);
    }
  }

  lemma Regroup(a: seq<Token>, b: seq<Token>, c: seq<Token>, k: seq<Token>)
    ensures a + (b + c) + k == a + (b + (c + k)) && a + b + c + k == a + (b + (c + k))
    ensures [] + a == a && b + c + k == b + (c + k)
  {
  }

  lemma FirstPart(items: seq<Item>)
    requires items != [] && items[0].Arg?
    ensures ItemsTokens(items) == [Word(items[0].word)] + ItemsTokens(items[1..])
    ensures Words(items) == [items[0].word] + Words(items[1..]) && Redirects(items) == Redirects(items[1..])
  {
  }

  lemma FirstArg(items: seq<Item>, n: nat, k: seq<Token>)
    requires items != [] && items[0].Arg? && n == Leading(items[1..])
    ensures var more := items[1..];
      && ItemsTokens(items) + k == [Word(items[0].word)] + (ItemsTokens(more[..n]) + (ItemsTokens(more[n..]) + k))
      && Words(items) == [items[0].word] + Words(more[n..]) && Redirects(items) == more[..n] + Redirects(more[n..])
  {
    hide *;
    var more := items[1..];
    ItemsSplit(more, n);
    OnlyRedirectsAre(more[..n]);
    FirstPart(items);
    Regroup([Word(items[0].word)], ItemsTokens(more[..n]), ItemsTokens(more[n..]), k);
  }

  /** No redirection comes first. */
  lemma RedirectsFollow(items: seq<Item>, k: seq<Token>)
    requires Ends(k) && (items == [] || items[0].Arg?)
    ensures !StartsWith(ItemsTokens(items) + k, {'<', '>', '+'}) && !StartsWith(ItemsTokens(items) + k, {'('})
  {
    if items == [] {
      assert ItemsTokens(items) + k == k;
    } else {
      assert (ItemsTokens(items) + k)[0] == Word(items[0].word);
    }
  }

  lemma ArgsEnd(c: Tree, argc: nat, s: string, k: seq<Token>)
    requires Lex(s) == k && Ends(k)
    ensures var r := Args(c, argc, s); r.Some? && r.value.0 == c && Lex(r.value.1) == k
  {
    PeekIs(s);
    LexSkip(s);
  }

  lemma SimpleRead(items: seq<Item>, s: string, k: seq<Token>)
    requires |Words(items)| < MAXARGS && Lex(s) == ItemsTokens(items) + k && Ends(k)
    ensures var r := ParseExec(s); r.Some? && r.value.0 == CommandTree(Simple(items)) && Lex(r.value.1) == k
  {
    hide Next, Peek, Lex, Args, Redirs, Under, ItemTokens, ItemsTokens, Words, Redirects;
    PeekIs(s);
    RedirectsAre(items);
    var n := Leading(items);
    var last := items[n..];
    ItemsSplit(items, n);
    OnlyRedirectsAre(items[..n]);
    RedirectsFollow(last, k);
    var k1 := ItemsTokens(last) + k;
    Regroup([], ItemsTokens(items[..n]), ItemsTokens(last), k);
    NoParenthesis(items[..n], k1);
    RedirsRead(Exec([]), items[..n], s, k1);
    RedirectsAre(last);
    ArgsRead([], items[..n], last, Redirs(Exec([]), s).value.1, k);
    assert [] + Words(last) == Words(items);
  }

  lemma NoParenthesis(rs: seq<Item>, k: seq<Token>)
    requires OnlyRedirects(rs) && !StartsWith(k, {'('})
    ensures !StartsWith(ItemsTokens(rs) + k, {'('})
  {
    if rs == [] {
      assert ItemsTokens(rs) + k == k;
    } else {
      assert ItemsTokens(rs) == ItemTokens(rs[0]) + ItemsTokens(rs[1..]);
      assert (ItemsTokens(rs) + k)[0] == ItemTokens(rs[0])[0];
    }
  }

  lemma CommandRead(c: Command, s: string, k: seq<Token>)
    requires CommandOk(c) && Lex(s) == CommandTokens(c) + k && Ends(k)
    ensures var r := ParseExec(s); r.Some? && r.value.0 == CommandTree(c) && Lex(r.value.1) == k
    decreases c
  {
    hide Next, Peek, Lex, Args, Redirs, Under, ItemTokens, ParseLine, Words;
    match c
    case Simple(items) => SimpleRead(items, s, k);
    case Block(inner, redirs) =>
      PeekIs(s);
      var k1 := ItemsTokens(redirs) + k;
      var k2 := [Sym(')')] + k1;
      assert CommandTokens(c) + k == [Sym('(')] + (LineTokens(inner) + k2);
      NextIs(s, Sym('('), LineTokens(inner) + k2);
      LineRead(inner, Next(s).1, k2);
      var a := ParseLine(Next(s).1).value.1;
      PeekIs(a);
      NextIs(a, Sym(')'), k1);
      RedirsRead(LineTree(inner), redirs, Next(a).1, k);
  }

  lemma PipelineRead(p: Pipeline, s: string, k: seq<Token>)
    requires PipelineOk(p) && Lex(s) == PipelineTokens(p) + k && (k == [] || StartsWith(k, {')', '&', ';'}))
    ensures var r := ParsePipe(s); r.Some? && r.value.0 == PipelineTree(p) && Lex(r.value.1) == k
    decreases p
  {
    hide Next, Peek, Lex, ParseExec;
    var more := match p.rest case None => [] case Some(q) => [Sym('|')] + PipelineTokens(q);
    assert PipelineTokens(p) + k == CommandTokens(p.first) + (more + k);
    assert p.rest == None ==> more + k == k;
    CommandRead(p.first, s, more + k);
    var a := ParseExec(s).value.1;
    PeekIs(a);
    LexSkip(a);
    if p.rest.Some? {
      var q := p.rest.value;
      assert more + k == [Sym('|')] + (PipelineTokens(q) + k);
      NextIs(a, Sym('|'), PipelineTokens(q) + k);
      PipelineRead(q, Next(a).1, k);
    }
  }

  lemma {:induction false} BacksOut(c: Tree, n: nat)
    ensures Backs(Back(c), n) == Back(Backs(c, n))
    decreases n
  {
    if n > 0 {
      BacksOut(c, n - 1);
    }
  }

  lemma {:induction false} AmpsRead(c: Tree, n: nat, s: string, k: seq<Token>)
    requires Lex(s) == Ampersands(n) + k && !StartsWith(k, {'&'})
    ensures var r := Amps(c, s); r.0 == Backs(c, n) && Lex(r.1) == k
    decreases n
  {
    hide Next, Peek, Lex;
    PeekIs(s);
    LexSkip(s);
    if n == 0 {
      assert Ampersands(n) + k == k;
    } else {
      assert Ampersands(n) + k == [Sym('&')] + (Ampersands(n - 1) + k);
      NextIs(s, Sym('&'), Ampersands(n - 1) + k);
      AmpsRead(Back(c), n - 1, Next(s).1, k);
      BacksOut(c, n - 1);
    }
  }

  lemma LineRead(l: Line, s: string, k: seq<Token>)
    requires LineOk(l) && Lex(s) == LineTokens(l) + k && (k == [] || StartsWith(k, {')'}))
    ensures var r := ParseLine(s); r.Some? && r.value.0 == LineTree(l) && Lex(r.value.1) == k
    decreases l
  {
    hide Next, Peek, Lex, ParsePipe, Amps, Ampersands, Skip;
    var more := match l.rest case None => [] case Some(m) => [Sym(';')] + LineTokens(m);
    var amps := Ampersands(l.amps);
    assert LineTokens(l) + k == PipelineTokens(l.head) + (amps + (more + k));
    assert l.rest == None ==> more + k == k;
    AmpsFirst(l.amps, more + k);
    PipelineRead(l.head, s, amps + (more + k));
    var a := ParsePipe(s).value;
    AmpsRead(a.0, l.amps, a.1, more + k);
    var b := Amps(a.0, a.1).1;
    PeekIs(b);
    LexSkip(b);
    if l.rest.Some? {
      var m := l.rest.value;
      assert more + k == [Sym(';')] + (LineTokens(m) + k);
      NextIs(b, Sym(';'), LineTokens(m) + k);
      LineRead(m, Next(b).1, k);
    }
  }

  lemma AmpsFirst(n: nat, k: seq<Token>)
    requires k == [] || StartsWith(k, {')', ';'})
    ensures var t := Ampersands(n) + k; t == [] || StartsWith(t, {')', '&', ';'})
  {
    if n == 0 {
      assert Ampersands(n) + k == k;
    } else {
      assert (Ampersands(n) + k)[0] == Sym('&');
    }
  }

  // ----- what is read was written

  /** Three stretches of tokens, one after the other. */
  lemma Chain(s: seq<Token>, x: seq<Token>, a: seq<Token>, y: seq<Token>, b: seq<Token>, z: seq<Token>, k: seq<Token>)
    requires s == x + a && a == y + b && b == z + k
    ensures s == x + (y + z) + k && s == x + y + z + k && a == y + z + k
  {
  }

  lemma LexFirst(s: string)
    ensures Lex(s) == [] <==> Next(s).0 == End
    ensures Lex(s) != [] ==> Lex(s) == [Next(s).0] + Lex(Next(s).1) && |Next(s).1| < |s|
  {
  }

  lemma {:induction false} RedirsWritten(c: Tree, s: string) returns (rs: seq<Item>)
    requires Redirs(c, s).Some?
    ensures var (t, k) := Redirs(c, s).value;
      && OnlyRedirects(rs) && Lex(s) == ItemsTokens(rs) + Lex(k) && t == Under(c, rs) && |k| <= |s|
      && !StartsWith(Lex(k), {'<', '>', '+'})
    decreases |s|
  {
    hide Next, Lex;
    PeekIs(s);
    LexFirst(s);
    LexSkip(s);
    if Peek(s, {'<', '>'}) {
      var (tok, a) := Next(s);
      var (file, b) := Next(a);
      LexFirst(a);
      var op := if tok == Sym('<') then In else if tok == Sym('>') then Out else Append;
      var i := Redirect(op, file.text);
      assert Redirected(c, i) == Redir(c, file.text, if tok == Sym('<') then 0 else 1);
      var more := RedirsWritten(Redirected(c, i), b);
      rs := [i] + more;
      assert rs[1..] == more && ItemTokens(i) == [tok, file];
      assert Lex(s) == [tok, file] + Lex(b);
      var k := Redirs(c, s).value.1;
      assert ItemsTokens(rs) + Lex(k) == ItemTokens(i) + (ItemsTokens(more) + Lex(k));
    } else {
      rs := [];
      assert ItemsTokens(rs) + Lex(s) == Lex(s);
    }
  }

  lemma {:induction false} ArgsWritten(ws: seq<string>, rs: seq<Item>, s: string) returns (items: seq<Item>)
    requires OnlyRedirects(rs) && Args(Under(Exec(ws), rs), |ws|, s).Some? && |ws| < MAXARGS
    requires !StartsWith(Lex(s), {'<', '>', '+'})
    ensures OnlyRedirects(rs + Redirects(items)) && |ws| + |Words(items)| < MAXARGS
    ensures var (t, k) := Args(Under(Exec(ws), rs), |ws|, s).value;
      && Lex(s) == ItemsTokens(items) + Lex(k) && t == Under(Exec(ws + Words(items)), rs + Redirects(items))
      && Ends(Lex(k)) && |k| <= |s|
    decreases |s|
  {
    hide Next, Lex, Under, Redirs;
    PeekIs(s);
    LexFirst(s);
    LexSkip(s);
    var c := Under(Exec(ws), rs);
    var (tok, a) := Next(s);
    if Peek(s, {'|', ')', '&', ';'}) || tok == End {
      items := [];
      LexFirst(a);
      assert ItemsTokens(items) + Lex(s) == Lex(s) && ws + Words(items) == ws && rs + Redirects(items) == rs;
      EndIsNothing(s);
    } else {
      hide ItemsTokens, Words, Redirects, Args, AddArg, Ends, StartsWith, ItemTokens;
      var w := tok.text;
      var next := Under(Exec(ws + [w]), rs);
      ArgsGoOn(ws, rs, s);
      var here := RedirsWritten(next, a);
      UnderTwice(Exec(ws + [w]), rs, here);
      var b := Redirs(next, a).value.1;
      var more := ArgsWritten(ws + [w], rs + here, b);
      items := [Arg(w)] + (here + more);
      ArgThenRedirects(w, here, more);
      assert ws + [w] + Words(more) == ws + Words(items);
      assert rs + here + Redirects(more) == rs + Redirects(items);
      var k := Args(c, |ws|, s).value.1;
      Chain(Lex(s), [tok], Lex(a), ItemsTokens(here), Lex(b), ItemsTokens(more), Lex(k));
    }
  }

  /** A turn of the loop over the arguments that did not end it. */
  lemma ArgsGoOn(ws: seq<string>, rs: seq<Item>, s: string)
    requires OnlyRedirects(rs) && Args(Under(Exec(ws), rs), |ws|, s).Some?
    requires !Peek(s, {'|', ')', '&', ';'}) && Next(s).0 != End
    ensures Next(s).0.Word? && |ws| + 1 < MAXARGS && |Next(s).1| < |s|
    ensures var c := Under(Exec(ws + [Next(s).0.text]), rs);
      var r := Redirs(c, Next(s).1);
      r.Some? && Args(Under(Exec(ws), rs), |ws|, s) == Args(r.value.0, |ws| + 1, r.value.1)
  {
    hide Next, Peek, Under, Redirs;
    if Next(s).0.Word? {
      AddArgUnder(Exec(ws), rs, Next(s).0.text);
    }
  }

  /** At the end of the input nothing is left. */
  lemma EndIsNothing(s: string)
    ensures Next(s).0 == End ==> Lex(Next(s).1) == []
  {
  }

  lemma ArgThenRedirects(w: string, here: seq<Item>, more: seq<Item>)
    requires OnlyRedirects(here)
    ensures var items := [Arg(w)] + (here + more);
      && ItemsTokens(items) == [Word(w)] + (ItemsTokens(here) + ItemsTokens(more))
      && Words(items) == [w] + Words(more) && Redirects(items) == here + Redirects(more)
  {
    hide *;
    var items := [Arg(w)] + (here + more);
    assert items[1..] == here + more;
    FirstPart(items);
    TokensSplit(here, more);
    WordsSplit(here, more);
    RedirectsSplit(here, more);
    OnlyRedirectsAre(here);
  }

  lemma RedirectsThenArgs(rs: seq<Item>, items: seq<Item>)
    requires OnlyRedirects(rs)
    ensures ItemsTokens(rs + items) == ItemsTokens(rs) + ItemsTokens(items)
    ensures [] + Words(items) == Words(rs + items) && rs + Redirects(items) == Redirects(rs + items)
  {
    hide *;
    TokensSplit(rs, items);
    WordsSplit(rs, items);
    RedirectsSplit(rs, items);
    OnlyRedirectsAre(rs);
  }

  lemma SimpleWritten(s: string) returns (items: seq<Item>)
    requires ParseExec(s).Some? && !Peek(s, {'('})
    ensures var (t, k) := ParseExec(s).value;
      && |Words(items)| < MAXARGS && Lex(s) == ItemsTokens(items) + Lex(k) && t == CommandTree(Simple(items))
      && |k| <= |s|
  {
    hide Next, Peek, Lex, Under, Redirs, Args, ItemsTokens, Words, Redirects;
    var rs := RedirsWritten(Exec([]), s);
    var a := Redirs(Exec([]), s).value.1;
    var more := ArgsWritten([], rs, a);
    items := rs + more;
    var k := ParseExec(s).value.1;
    RedirectsThenArgs(rs, more);
    RedirectsAre(items);
    Chain(Lex(s), [], Lex(s), ItemsTokens(rs), Lex(a), ItemsTokens(more), Lex(k));
  }

  lemma CommandWritten(s: string) returns (c: Command)
    requires ParseExec(s).Some?
    ensures var (t, k) := ParseExec(s).value;
      CommandOk(c) && Lex(s) == CommandTokens(c) + Lex(k) && t == CommandTree(c) && |k| <= |s|
    decreases |s|, 1
  {
    hide Next, Lex, Under, Redirs, Args, ParseLine, ItemsTokens, LineTokens, Words;
    PeekIs(s);
    if Peek(s, {'('}) {
      LexFirst(s);
      var a := Next(s).1;
      var inner := LineWritten(a);
      var b := ParseLine(a).value.1;
      PeekIs(b);
      LexFirst(b);
      var d := Next(b).1;
      var redirs := RedirsWritten(LineTree(inner), d);
      c := Block(inner, redirs);
      var k := ParseExec(s).value.1;
      Chain(Lex(b), [], Lex(b), [Sym(')')], Lex(d), ItemsTokens(redirs), Lex(k));
      Chain(Lex(s), [Sym('(')], Lex(a), LineTokens(inner), Lex(b), [Sym(')')] + ItemsTokens(redirs), Lex(k));
      Regroup([Sym('(')], LineTokens(inner), [Sym(')')], ItemsTokens(redirs));
    } else {
      var items := SimpleWritten(s);
      c := Simple(items);
    }
  }

  lemma PipelineWritten(s: string) returns (p: Pipeline)
    requires ParsePipe(s).Some?
    ensures var (t, k) := ParsePipe(s).value;
      PipelineOk(p) && Lex(s) == PipelineTokens(p) + Lex(k) && t == PipelineTree(p) && |k| <= |s|
    decreases |s|, 2
  {
    hide Next, Lex, ParseExec, CommandTokens;
    var c := CommandWritten(s);
    var a := ParseExec(s).value.1;
    PeekIs(a);
    LexFirst(a);
    LexSkip(a);
    var k := ParsePipe(s).value.1;
    if Peek(a, {'|'}) {
      var q := PipelineWritten(Next(a).1);
      p := Pipeline(c, Some(q));
      Chain(Lex(s), CommandTokens(c), Lex(a), [Sym('|')], Lex(Next(a).1), PipelineTokens(q), Lex(k));
    } else {
      p := Pipeline(c, None);
      assert PipelineTokens(p) == CommandTokens(c);
    }
  }

  lemma {:induction false} AmpsWritten(c: Tree, s: string) returns (n: nat)
    ensures var (t, k) := Amps(c, s); Lex(s) == Ampersands(n) + Lex(k) && t == Backs(c, n) && |k| <= |s|
    decreases |s|
  {
    hide Next, Lex;
    PeekIs(s);
    LexFirst(s);
    LexSkip(s);
    if Peek(s, {'&'}) {
      var m := AmpsWritten(Back(c), Next(s).1);
      n := m + 1;
      BacksOut(c, m);
      assert Ampersands(n) == [Sym('&')] + Ampersands(m);
      assert Lex(s) == [Sym('&')] + (Ampersands(m) + Lex(Amps(c, s).1));
    } else {
      n := 0;
      assert Ampersands(0) + Lex(s) == Lex(s);
    }
  }

  lemma LineWritten(s: string) returns (l: Line)
    requires ParseLine(s).Some?
    ensures var (t, k) := ParseLine(s).value;
      LineOk(l) && Lex(s) == LineTokens(l) + Lex(k) && t == LineTree(l) && |k| <= |s|
    decreases |s|, 3
  {
    hide Next, Lex, ParsePipe, Amps, Ampersands, PipelineTokens;
    var p := PipelineWritten(s);
    var a := ParsePipe(s).value;
    var n := AmpsWritten(a.0, a.1);
    var b := Amps(a.0, a.1).1;
    PeekIs(b);
    LexFirst(b);
    LexSkip(b);
    var k := ParseLine(s).value.1;
    if Peek(b, {';'}) {
      var more := LineWritten(Next(b).1);
      l := Line(p, n, Some(more));
      Chain(Lex(b), [], Lex(b), [Sym(';')], Lex(Next(b).1), LineTokens(more), Lex(k));
      Chain(Lex(s), PipelineTokens(p), Lex(a.1), Ampersands(n), Lex(b), [Sym(';')] + LineTokens(more), Lex(k));
    } else {
      l := Line(p, n, None);
      assert LineTokens(l) == PipelineTokens(p) + Ampersands(n);
      Chain(Lex(s), PipelineTokens(p), Lex(a.1), Ampersands(n), Lex(b), [], Lex(k));
    }
  }

  /** The parser reads a tree from a text exactly when the text is, by its tokens, a line of the language that stands
      for this tree. What is no such line ends in a panic. */
  lemma ParsesExactly(s: string, t: Tree)
    ensures ParseCmd(s) == Some(t) <==> exists l: Line :: LineOk(l) && LineTokens(l) == Lex(s) && LineTree(l) == t
  {
    hide Next, Lex, ParseLine;
    if l: Line :| LineOk(l) && LineTokens(l) == Lex(s) && LineTree(l) == t {
      assert LineTokens(l) + [] == LineTokens(l);
      LineRead(l, s, []);
      PeekIs(ParseLine(s).value.1);
    }
    if ParseCmd(s) == Some(t) {
      var l := LineWritten(s);
      PeekIs(ParseLine(s).value.1);
      assert LineTokens(l) + [] == LineTokens(l);
    }
  }
}
