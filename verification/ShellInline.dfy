/** Simple commands whose redirections stand among the words. */
module ShellInline {
  import opened Shell
  import opened ShellRoundTrip

  datatype Item = Word(text: string) | Input(text: string) | Output(text: string) | Append(text: string)

  function Operator(item: Item): string {
    match item
    case Word(_) => ""
    case Input(_) => "<"
    case Output(_) => ">"
    case Append(_) => ">>"
  }

  function ItemText(item: Item): string {
    if item.Word? then item.text else Operator(item) + item.text
  }

  function ItemsText(items: seq<Item>): string {
    if items == [] then "" else if |items| == 1 then ItemText(items[0]) else ItemText(items[0]) + (" " + ItemsText(items[1..]))
  }

  /** The words, in order. */
  function WordsOf(items: seq<Item>): seq<string> {
    if items == [] then [] else (if items[0].Word? then [items[0].text] else []) + WordsOf(items[1..])
  }

  function Around(inner: Cmd<string>, item: Item): Cmd<string> {
    match item
    case Word(_) => inner
    case Input(f) => Redir(inner, f, O_RDONLY, 0)
    case Output(f) => Redir(inner, f, O_WRONLY_CREATE, 1)
    case Append(f) => Redir(inner, f, O_WRONLY_CREATE, 1)
  }

  /** The redirections around a command, the later ones outermost. */
  function Wrapped(inner: Cmd<string>, items: seq<Item>): Cmd<string>
    decreases |items|
  {
    if items == [] then inner else Wrapped(Around(inner, items[0]), items[1..])
  }

  /** The rest of parseexec from a point where redirections may stand. */
  function Rest(s: string, ret: Cmd<Span>, argv: seq<Span>, p: nat): Parsed
    requires p <= |s|
  {
    var m := Redirs(s, ret, p);
    if m.Err? then Err else Args(s, m.cmd, argv, m.p)
  }

  ghost predicate AllWords(items: seq<Item>) {
    items == [] || (IsWord(items[0].text) && AllWords(items[1..]))
  }

  /** Well-formed items are printed at p, and a command may end behind them. */
  ghost predicate ItemsStand(s: string, p: nat, items: seq<Item>, end: nat) {
    end == p + |ItemsText(items)| && At(s, p, ItemsText(items)) && Closed(s, end) && AllWords(items)
  }

  lemma FirstChar(item: Item)
    requires IsWord(item.text)
    ensures ItemText(item) != "" && !IsSpace(ItemText(item)[0]) && ItemText(item)[0] != '(' && ItemText(item)[0] != ')'
  {
  }

  /** Past the first of some printed items stand the others. */
  lemma NextItem(s: string, p: nat, items: seq<Item>, end: nat) returns (next: nat)
    requires items != [] && ItemsStand(s, p, items, end)
    ensures At(s, p, ItemText(items[0])) && Follows(s, p + |ItemText(items[0])|, next) && ItemsStand(s, next, items[1..], end)
    ensures |items| > 1 ==> next == p + |ItemText(items[0])| + 1
  {
    if |items| == 1 {
      next := end;
      LastItem(s, p, items, end);
    } else {
      next := p + |ItemText(items[0])| + 1;
      NotLastItem(s, p, items, end, next);
    }
  }

  lemma LastItem(s: string, p: nat, items: seq<Item>, end: nat)
    requires |items| == 1 && ItemsStand(s, p, items, end)
    ensures At(s, p, ItemText(items[0])) && Follows(s, p + |ItemText(items[0])|, end) && ItemsStand(s, end, items[1..], end)
  {
  }

  lemma NotLastItem(s: string, p: nat, items: seq<Item>, end: nat, next: nat)
    requires |items| > 1 && ItemsStand(s, p, items, end) && next == p + |ItemText(items[0])| + 1
    ensures At(s, p, ItemText(items[0])) && Follows(s, p + |ItemText(items[0])|, next) && ItemsStand(s, next, items[1..], end)
  {
    RestIsFirm(items);
    SpaceBetween(s, p, ItemText(items[0]), ItemsText(items[1..]), end);
  }

  lemma RestIsFirm(items: seq<Item>)
    requires |items| > 1 && AllWords(items[1..])
    ensures ItemsText(items) == ItemText(items[0]) + (" " + ItemsText(items[1..]))
    ensures ItemsText(items[1..]) != "" && !IsSpace(ItemsText(items[1..])[0])
  {
    FirstChar(items[1]);
    ItemsFirst(items[1..]);
  }

  lemma ItemsFirst(items: seq<Item>)
    requires items != [] && ItemText(items[0]) != ""
    ensures ItemsText(items) != "" && ItemsText(items)[0] == ItemText(items[0])[0]
  {
  }

  lemma SpaceBetween(s: string, p: nat, x: string, rest: string, end: nat)
    requires At(s, p, x + (" " + rest)) && end == p + |x + (" " + rest)| && rest != "" && !IsSpace(rest[0])
    ensures At(s, p, x) && At(s, p + |x| + 1, rest) && end == p + |x| + 1 + |rest|
    ensures Follows(s, p + |x|, p + |x| + 1)
  {
    AtSplit(s, p, x, " " + rest);
    AtSplit(s, p + |x|, " ", rest);
    assert s[p + |x| + 0] == " "[0] && s[p + |x| + 1 + 0] == rest[0];
  }

  lemma RestAtWord(s: string, p: nat, ret: Cmd<Span>, argv: seq<Span>, w: string, next: nat)
    requires IsWord(w) && At(s, p, w) && Follows(s, p + |w|, next) && |argv| + 1 < MAXARGS
    ensures Rest(s, ret, argv, p) == Rest(s, ret, argv + [Span(p, p + |w|)], next)
    ensures Slice(s, Span(p, p + |w|)) == w
  {
    WordThenNext(s, p, w, next);
    FirmStays(s, p);
    NoRedirs(s, ret, p);
  }

  /** The character gettoken returns for the operator. */
  function Kind(item: Item): char {
    match item
    case Word(_) => 'a'
    case Input(_) => '<'
    case Output(_) => '>'
    case Append(_) => '+'
  }

  lemma OperatorStands(s: string, p: nat, item: Item)
    requires !item.Word? && IsWord(item.text) && At(s, p, ItemText(item))
    ensures var q := p + |Operator(item)|;
            && q < |s| && At(s, q, item.text) && s[p] == Operator(item)[0] && (item.Append? ==> s[p + 1] == '>')
            && s[q] == item.text[0]
  {
    var q := p + |Operator(item)|;
    AtSplit(s, p, Operator(item), item.text);
    assert s[p + 0] == Operator(item)[0] && s[q + 0] == item.text[0];
    assert item.Append? ==> s[p + 1] == Operator(item)[1];
  }

  lemma OperatorToken(s: string, p: nat, item: Item)
    requires !item.Word? && IsWord(item.text) && At(s, p, ItemText(item))
    ensures p < |s| && IsRedirection(s[p]) && Skip(s, p) == p
    ensures GetToken(s, p).kind == Kind(item) && GetToken(s, p).next == p + |Operator(item)|
  {
    OperatorStands(s, p, item);
    FirmStays(s, p);
    FirmStays(s, p + |Operator(item)|);
  }

  /** Behind the operator of a printed redirection stands its file. */
  lemma FileToken(s: string, p: nat, item: Item, next: nat)
    requires !item.Word? && IsWord(item.text) && At(s, p, ItemText(item)) && Follows(s, p + |ItemText(item)|, next)
    ensures var q := p + |Operator(item)|;
            && q <= |s| && GetToken(s, q) == Token('a', Span(q, q + |item.text|), next)
            && Slice(s, Span(q, q + |item.text|)) == item.text
  {
    OperatorStands(s, p, item);
    WordThenNext(s, p + |Operator(item)|, item.text, next);
  }

  lemma RestAtRedirection(s: string, p: nat, ret: Cmd<Span>, argv: seq<Span>, item: Item, next: nat, more: Cmd<Span>)
    requires !item.Word? && IsWord(item.text) && At(s, p, ItemText(item)) && Follows(s, p + |ItemText(item)|, next)
    requires more == NextRet(ret, item, p)
    ensures Rest(s, ret, argv, p) == Rest(s, more, argv, next)
  {
    OperatorToken(s, p, item);
    FileToken(s, p, item, next);
  }

  lemma RestAtEnd(s: string, p: nat, ret: Cmd<Span>, argv: seq<Span>)
    requires Closed(s, p)
    ensures Rest(s, ret, argv, p) == Ok(Fill(ret, argv), p)
  {
    FirmStays(s, p);
    NoRedirs(s, ret, p);
  }

  lemma {:induction false} SlicesAppend(s: string, ws: seq<Span>, w: Span)
    ensures Slices(s, ws + [w]) == Slices(s, ws) + [Slice(s, w)]
  {
    if ws == [] {
      assert ([] + [w])[1..] == [];
    } else {
      SlicesAppend(s, ws[1..], w);
      assert (ws + [w])[1..] == ws[1..] + [w];
    }
  }

  // What one item at p adds to the wrapping redirections and to the words

  function NextRet(ret: Cmd<Span>, item: Item, p: nat): Cmd<Span> {
    var q := p + |Operator(item)|;
    if item.Word? then ret else Redirection(ret, Kind(item), Span(q, q + |item.text|))
  }

  function NextArgv(argv: seq<Span>, item: Item, p: nat): seq<Span> {
    if item.Word? then argv + [Span(p, p + |item.text|)] else argv
  }

  /** The tree that parseexec builds from printed items at p, given what it has built before. */
  function Built(ret: Cmd<Span>, argv: seq<Span>, items: seq<Item>, p: nat): Cmd<Span>
    decreases |items|
  {
    if items == [] then Fill(ret, argv)
    else Built(NextRet(ret, items[0], p), NextArgv(argv, items[0], p), items[1..], p + |ItemText(items[0])| + 1)
  }

  lemma BuiltStep(ret: Cmd<Span>, argv: seq<Span>, items: seq<Item>, p: nat, next: nat)
    requires items != [] && (|items| > 1 ==> next == p + |ItemText(items[0])| + 1)
    ensures Built(ret, argv, items, p) == Built(NextRet(ret, items[0], p), NextArgv(argv, items[0], p), items[1..], next)
  {
  }

  lemma {:induction false} ItemsParse(s: string, p: nat, ret: Cmd<Span>, argv: seq<Span>, items: seq<Item>, end: nat)
    requires ItemsStand(s, p, items, end) && |argv| + |WordsOf(items)| < MAXARGS
    ensures Rest(s, ret, argv, p) == Ok(Built(ret, argv, items, p), end)
    decreases |items|, 1
  {
    if items == [] {
      RestAtEnd(s, p, ret, argv);
    } else {
      var next := NextItem(s, p, items, end);
      if items[0].Word? {
        WordParses(s, p, ret, argv, items, next, end);
      } else {
        RedirectionParses(s, p, ret, argv, items, next, end);
      }
    }
  }

  lemma {:induction false} WordParses(s: string, p: nat, ret: Cmd<Span>, argv: seq<Span>, items: seq<Item>, next: nat, end: nat)
    requires items != [] && items[0].Word? && IsWord(items[0].text) && At(s, p, items[0].text)
    requires Follows(s, p + |items[0].text|, next) && ItemsStand(s, next, items[1..], end) && |argv| + |WordsOf(items)| < MAXARGS
    requires |items| > 1 ==> next == p + |ItemText(items[0])| + 1
    ensures Rest(s, ret, argv, p) == Ok(Built(ret, argv, items, p), end)
    decreases |items|, 0
  {
    BuiltStep(ret, argv, items, p, next);
    RestAtWord(s, p, ret, argv, items[0].text, next);
    ItemsParse(s, next, ret, NextArgv(argv, items[0], p), items[1..], end);
  }

  lemma {:induction false} RedirectionParses(s: string, p: nat, ret: Cmd<Span>, argv: seq<Span>, items: seq<Item>, next: nat, end: nat)
    requires items != [] && !items[0].Word? && IsWord(items[0].text) && At(s, p, ItemText(items[0]))
    requires Follows(s, p + |ItemText(items[0])|, next) && ItemsStand(s, next, items[1..], end) && |argv| + |WordsOf(items)| < MAXARGS
    requires |items| > 1 ==> next == p + |ItemText(items[0])| + 1
    ensures Rest(s, ret, argv, p) == Ok(Built(ret, argv, items, p), end)
    decreases |items|, 0
  {
    BuiltStep(ret, argv, items, p, next);
    var more := NextRet(ret, items[0], p);
    RestAtRedirection(s, p, ret, argv, items[0], next, more);
    ItemsParse(s, next, more, argv, items[1..], end);
  }

  // The strings of that tree

  function BuiltText(ret: Cmd<string>, argv: seq<string>, items: seq<Item>): Cmd<string>
    decreases |items|
  {
    if items == [] then Fill(ret, argv)
    else BuiltText(Around(ret, items[0]), argv + (if items[0].Word? then [items[0].text] else []), items[1..])
  }

  lemma {:induction false} TextOfFill(s: string, ret: Cmd<Span>, argv: seq<Span>)
    ensures Text(s, Fill(ret, argv)) == Fill(Text(s, ret), Slices(s, argv))
  {
    if ret.Redir? {
      TextOfFill(s, ret.cmd, argv);
    }
  }

  lemma TextOfItem(s: string, p: nat, ret: Cmd<Span>, argv: seq<Span>, item: Item, next: nat)
    requires IsWord(item.text) && At(s, p, ItemText(item)) && Follows(s, p + |ItemText(item)|, next)
    ensures Text(s, NextRet(ret, item, p)) == Around(Text(s, ret), item)
    ensures Slices(s, NextArgv(argv, item, p)) == Slices(s, argv) + if item.Word? then [item.text] else []
  {
    if item.Word? {
      WordThenNext(s, p, item.text, next);
      SlicesAppend(s, argv, Span(p, p + |item.text|));
    } else {
      FileToken(s, p, item, next);
    }
  }

  lemma {:induction false} BuiltMeans(s: string, p: nat, ret: Cmd<Span>, argv: seq<Span>, items: seq<Item>, end: nat)
    requires ItemsStand(s, p, items, end)
    ensures Text(s, Built(ret, argv, items, p)) == BuiltText(Text(s, ret), Slices(s, argv), items)
    decreases |items|
  {
    if items == [] {
      TextOfFill(s, ret, argv);
    } else {
      var next := NextItem(s, p, items, end);
      BuiltStep(ret, argv, items, p, next);
      TextOfItem(s, p, ret, argv, items[0], next);
      BuiltMeans(s, next, NextRet(ret, items[0], p), NextArgv(argv, items[0], p), items[1..], end);
    }
  }

  lemma {:induction false} BuiltIsWrapped(ret: Cmd<string>, argv: seq<string>, items: seq<Item>)
    ensures BuiltText(ret, argv, items) == Wrapped(Fill(ret, argv + WordsOf(items)), items)
    decreases |items|
  {
    if items == [] {
      assert argv + WordsOf(items) == argv;
    } else {
      var more := argv + if items[0].Word? then [items[0].text] else [];
      BuiltIsWrapped(Around(ret, items[0]), more, items[1..]);
      assert more + WordsOf(items[1..]) == argv + WordsOf(items);
    }
  }

  /**
   * A simple command with redirections anywhere among its words: argv is the words in order, and
   * the redirections go around it in order, the last one outermost.
   */
  lemma InlineRedirections(s: string, p: nat, items: seq<Item>, end: nat) returns (c: Cmd<Span>)
    requires ItemsStand(s, p, items, end) && |WordsOf(items)| < MAXARGS
    ensures Simple(s, p) == Ok(c, end) && Text(s, c) == Wrapped(Exec(WordsOf(items)), items)
  {
    c := Built(Exec([]), [], items, p);
    ItemsParse(s, p, Exec([]), [], items, end);
    BuiltMeans(s, p, Exec([]), [], items, end);
    BuiltIsWrapped(Exec([]), [], items);
    assert [] + WordsOf(items) == WordsOf(items);
    NotABlock(s, p, items, end);
  }

  lemma NotABlock(s: string, p: nat, items: seq<Item>, end: nat)
    requires ItemsStand(s, p, items, end)
    ensures p <= |s| && Peek(s, p) != '('
  {
    if items != [] {
      var next := NextItem(s, p, items, end);
      FirstChar(items[0]);
      assert s[p + 0] == ItemText(items[0])[0];
    }
    FirmStays(s, p);
  }
}
