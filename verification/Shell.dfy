/** The shell's line editor and its in-place tokenizer (lib/shell/shell.c). */
module Shell {
  import opened Bytes

  const SHELL_MAX_ARGUMENTS: int := 10

  datatype Ptr = Nil | At(i: nat)

  predicate Blank(c: byte) {
    c == ' ' as int || c == '\t' as int
  }

  /** The memory holds the NUL-terminated string `s` at `i`. */
  predicate Spells(m: seq<byte>, i: nat, s: seq<byte>) {
    i + |s| < |m| && m[i..i + |s|] == s && m[i + |s|] == 0 && forall k | 0 <= k < |s| :: s[k] != 0
  }

  /** The words of a line, built up from its last character. */
  function Words(s: seq<byte>): (w: seq<seq<byte>>) {
    if s == [] then []
    else if Blank(s[0]) then Words(s[1..])
    else if |s| == 1 || Blank(s[1]) then [[s[0]]] + Words(s[1..])
    else
      var rest := Words(s[1..]);
      if rest == [] then [[s[0]]] else [[s[0]] + rest[0]] + rest[1..]
  }

  lemma {:induction false} LeadingBlanks(s: seq<byte>, i: nat)
    requires i <= |s| && forall k | 0 <= k < i :: Blank(s[k])
    ensures Words(s) == Words(s[i..])
    decreases i
  {
    if i == 0 {
      assert s[0..] == s;
    } else {
      LeadingBlanks(s[1..], i - 1);
      assert s[1..][i - 1..] == s[i..];
    }
  }

  /** The first word is the stretch up to the next blank or the end. */
  lemma {:induction false} FirstWord(s: seq<byte>, j: nat)
    requires 0 < j <= |s| && (forall k | 0 <= k < j :: !Blank(s[k])) && (j < |s| ==> Blank(s[j]))
    ensures Words(s) == [s[..j]] + Words(s[j..])
    decreases j
  {
    if j == 1 {
      assert s[..1] == [s[0]];
    } else {
      var t := s[1..];
      FirstWord(t, j - 1);
      assert t[j - 1..] == s[j..] && [s[0]] + t[..j - 1] == s[..j];
      assert Words(t)[0] == t[..j - 1] && Words(t)[1..] == Words(s[j..]);
      assert !Blank(s[1]);
    }
  }

  // ----- what Words means

  function Join(w: seq<seq<byte>>): (s: seq<byte>) {
    if w == [] then [] else w[0] + [32] + Join(w[1..])
  }

  function NonBlanks(s: seq<byte>): (r: seq<byte>) {
    if s == [] then [] else (if s[0] == 32 || s[0] == 9 then [] else [s[0]]) + NonBlanks(s[1..])
  }

  function Flat(w: seq<seq<byte>>): (r: seq<byte>) {
    if w == [] then [] else w[0] + Flat(w[1..])
  }

  predicate GoodWord(w: seq<byte>) {
    |w| > 0 && forall k | 0 <= k < |w| :: w[k] != 32 && w[k] != 9
  }

  /** Words are non-empty, free of blanks, and together they are the line without its
      blanks, in order. */
  lemma {:induction false} WordsAreTheLine(s: seq<byte>)
    ensures forall i | 0 <= i < |Words(s)| :: GoodWord(Words(s)[i])
    ensures Flat(Words(s)) == NonBlanks(s)
  {
    hide Words;
    EmptyWords();
    if s != [] {
      WordsAreTheLine(s[1..]);
      WordsStep(s);
      var rest := Words(s[1..]);
      if !Blank(s[0]) && |s| > 1 && !Blank(s[1]) {
        WordsNone(s[1..]);
        assert Words(s) == [[s[0]] + rest[0]] + rest[1..];
        assert Words(s)[1..] == rest[1..];
        assert GoodWord(rest[0]);
        Assoc([s[0]], rest[0], Flat(rest[1..]));
      } else if !Blank(s[0]) {
        assert Words(s) == [[s[0]]] + rest && Words(s)[1..] == rest;
      }
    }
  }

  lemma WordsNone(s: seq<byte>)
    requires s != [] && !Blank(s[0])
    ensures Words(s) != []
  {
  }

  /** Splitting what was joined gives the words back: the split is the inverse of writing
      the words one after the other. */
  lemma {:induction false} SplitJoin(w: seq<seq<byte>>)
    requires forall i | 0 <= i < |w| :: GoodWord(w[i])
    ensures Words(Join(w)) == w
    decreases |w|
  {
    if w != [] {
      var s := Join(w);
      var j := |w[0]|;
      assert GoodWord(w[0]);
      assert s == w[0] + ([32] + Join(w[1..]));
      assert s[..j] == w[0] && s[j..] == [32] + Join(w[1..]);
      FirstWord(s, j);
      assert s[j..][1..] == Join(w[1..]);
      SplitJoin(w[1..]);
    }
  }

  /** A blank or a tab separates: what stands before and behind it is split on its own. */
  lemma {:induction false} SplitAtBlank(a: seq<byte>, c: byte, b: seq<byte>)
    requires c == 32 || c == 9
    ensures Words(a + [c] + b) == Words(a) + Words(b)
    decreases |a|
  {
    hide Words;
    var s := a + [c] + b;
    WordsStep(s);
    if a == [] {
      EmptyWords();
      assert s[0] == c && s[1..] == b;
    } else {
      WordsStep(a);
      SplitAtBlank(a[1..], c, b);
      assert s[0] == a[0] && s[1] == (if |a| == 1 then c else a[1]) && s[1..] == a[1..] + [c] + b;
      var w, v := Words(a[1..]), Words(b);
      if !Blank(a[0]) && |a| > 1 && !Blank(a[1]) {
        assert w != [] by { WordsNone(a[1..]); }
        assert (w + v)[0] == w[0] && (w + v)[1..] == w[1..] + v;
      } else if !Blank(a[0]) {
        Assoc([[a[0]]], w, v);
      }
    }
  }

  lemma WordsStep(s: seq<byte>)
    requires s != []
    ensures var rest := Words(s[1..]);
            Words(s) ==
            if Blank(s[0]) then rest
            else if |s| == 1 || Blank(s[1]) || rest == [] then [[s[0]]] + rest
            else [[s[0]] + rest[0]] + rest[1..]
  {
  }

  // ----- the tokenizer

  /** The spans that _strtok takes its token from. */
  ghost predicate Span(rest: seq<byte>, i: nat, j: nat) {
    && i <= j <= |rest|
    && (forall k | 0 <= k < i :: Blank(rest[k]))
    && (forall k | i <= k < j :: !Blank(rest[k]))
    && (j < |rest| ==> Blank(rest[j]))
    && (i == j ==> j == |rest|)
  }

  /** A word at the start of a string, and what follows its delimiter. */
  lemma WordThenRest(u: seq<byte>, n: nat)
    requires 0 < n <= |u| && (forall k | 0 <= k < n :: !Blank(u[k])) && (n < |u| ==> Blank(u[n]))
    ensures n == |u| ==> Words(u) == [u[..n]]
    ensures n < |u| ==> Words(u) == [u[..n]] + Words(u[n + 1..])
  {
    hide Words;
    FirstWord(u, n);
    var v := u[n..];
    if n == |u| {
      assert v == [];
      EmptyWords();
    } else {
      assert v[0] == u[n];
      LeadingBlanks(v, 1);
      assert v[1..] == u[n + 1..];
    }
  }

  lemma SpanWords(rest: seq<byte>, i: nat, j: nat)
    requires Span(rest, i, j)
    ensures i == j ==> Words(rest) == []
    ensures i < j == |rest| ==> Words(rest) == [rest[i..j]]
    ensures i < j < |rest| ==> Words(rest) == [rest[i..j]] + Words(rest[j + 1..])
  {
    hide Words, Blank, Span;
    SpanBlanks(rest, i, j);
    if i < j {
      var u := rest[i..];
      SpanTail(rest, i, j, u);
      WordThenRest(u, j - i);
    }
  }

  lemma SpanBlanks(rest: seq<byte>, i: nat, j: nat)
    requires Span(rest, i, j)
    ensures i <= j <= |rest| && Words(rest) == Words(rest[i..]) && (i == j ==> Words(rest) == [])
  {
    hide Words, Blank;
    LeadingBlanks(rest, i);
    if i == j {
      assert rest[i..] == [];
      EmptyWords();
    }
  }

  lemma SpanTail(rest: seq<byte>, i: nat, j: nat, u: seq<byte>)
    requires Span(rest, i, j) && i < j && u == rest[i..]
    ensures forall k | 0 <= k < j - i :: !Blank(u[k])
    ensures j < |rest| ==> Blank(u[j - i])
    ensures u[..j - i] == rest[i..j] && (j < |rest| ==> u[j - i + 1..] == rest[j + 1..])
  {
    hide Blank;
    forall k | 0 <= k < j - i ensures !Blank(u[k]) { assert u[k] == rest[i + k]; }
  }

  lemma EmptyWords()
    ensures Words([]) == []
  {
  }

  /** strspn and strpbrk: the next stretch of non-blanks of the string `rest` at `p`. */
  method FindSpan(line: array<byte>, p: nat, ghost rest: seq<byte>) returns (token: nat, end: nat)
    requires Spells(line[..], p, rest)
    ensures p <= token <= end <= p + |rest| && Span(rest, token - p, end - p)
  {
    token := p;
    while Blank(line[token])
      invariant p <= token <= p + |rest|
      invariant forall k | 0 <= k < token - p :: Blank(rest[k])
      decreases p + |rest| - token
    {
      SpellsAt(line[..], p, rest, token - p);
      token := token + 1;
    }
    SpellsAt(line[..], p, rest, token - p);
    end := token;
    while line[end] != 0 && !Blank(line[end])
      invariant token <= end <= p + |rest|
      invariant forall k | token - p <= k < end - p :: !Blank(rest[k])
      decreases p + |rest| - end
    {
      SpellsAt(line[..], p, rest, end - p);
      end := end + 1;
    }
    SpellsAt(line[..], p, rest, end - p);
  }

  lemma SpellsAt(m: seq<byte>, p: nat, s: seq<byte>, k: nat)
    requires Spells(m, p, s) && k <= |s|
    ensures m[p + k] == if k < |s| then s[k] else 0
  {
    if k < |s| { assert m[p..p + |s|][k] == m[p + k]; }
  }

  /** _strtok with blank and tab as delimiters; `str` is NULL or the start of the line.
      `rest` is the string still to be split. */
  method Strtok(line: array<byte>, str: Ptr, save: Ptr, ghost rest: seq<byte>) returns (token: Ptr, save': Ptr)
    requires var p := if str.At? then str else save;
             (p.Nil? ==> rest == []) && (p.At? ==> Spells(line[..], p.i, rest))
    modifies line
    ensures var p := if str.At? then str else save;
            if Words(rest) == [] then token == Nil && save' == Nil && line[..] == old(line[..])
            else
              && p.At? && token.At? && p.i <= token.i
              && Spells(line[..], token.i, Words(rest)[0])
              && line[..token.i] == old(line[..token.i])
              && (save'.Nil? ==> Words(rest)[1..] == [])
              && (save'.At? ==>
                    && save'.i == token.i + |Words(rest)[0]| + 1 <= p.i + |rest|
                    && Spells(line[..], save'.i, rest[save'.i - p.i..])
                    && Words(rest)[1..] == Words(rest[save'.i - p.i..]))
  {
    hide Words;
    save' := save;
    if str.At? { save' := str; }
    if save'.Nil? {
      EmptyWords();
      return Nil, Nil;
    }
    var p := save'.i;
    var t, end := FindSpan(line, p, rest);
    SpanWords(rest, t - p, end - p);
    SpellsAt(line[..], p, rest, t - p);
    SpellsAt(line[..], p, rest, end - p);
    ghost var m := line[..];
    if line[end] == 0 {
      save' := Nil;
    } else {
      line[end] := 0;
      CutString(m, line[..], p, rest, end);
      save' := At(end + 1);
    }
    if t == end { return Nil, save'; }
    token := At(t);
    CutWord(m, line[..], p, rest, t, end);
  }

  lemma SliceOfSlice(m: seq<byte>, p: nat, q: nat, a: nat, b: nat)
    requires p <= q <= |m| && a <= b <= q - p
    ensures m[p..q][a..b] == m[p + a..p + b]
  {
    var u := m[p..q];
    forall k | 0 <= k < b - a ensures u[a..b][k] == m[p + a..p + b][k] {
      assert u[a..b][k] == u[a + k] == m[p + a + k];
    }
  }

  /** After the cut, the rest of the string is still there behind it. */
  lemma CutString(m: seq<byte>, m': seq<byte>, p: nat, rest: seq<byte>, end: nat)
    requires Spells(m, p, rest) && p <= end < p + |rest| && m' == m[end := 0]
    ensures Spells(m', end + 1, rest[end + 1 - p..])
  {
    var s := rest[end + 1 - p..];
    assert m'[end + 1..end + 1 + |s|] == m[end + 1..p + |rest|] == m[p..p + |rest|][end + 1 - p..];
  }

  lemma CutWord(m: seq<byte>, m': seq<byte>, p: nat, rest: seq<byte>, t: nat, end: nat)
    requires Spells(m, p, rest) && p <= t <= end <= p + |rest| && |m'| == |m| && m'[..end] == m[..end] && m'[end] == 0
    ensures Spells(m', t, rest[t - p..end - p])
  {
    assert m'[t..end] == m'[..end][t..] == m[..end][t..] == m[t..end];
    SliceOfSlice(m, p, p + |rest|, t - p, end - p);
  }

  /** `a` points to the word `w`, which ends before `limit`. */
  predicate Token(m: seq<byte>, a: Ptr, w: seq<byte>, limit: nat) {
    a.At? && a.i + |w| < limit <= |m| && Spells(m, a.i, w)
  }

  /** Changes at or after `limit` leave the word alone. */
  lemma TokenKept(m: seq<byte>, m': seq<byte>, a: Ptr, w: seq<byte>, limit: nat, limit': nat)
    requires Token(m, a, w, limit) && |m'| == |m| && limit <= limit' <= |m|
    requires m'[..limit] == m[..limit]
    ensures Token(m', a, w, limit')
  {
    assert m'[a.i..a.i + |w|] == m'[..limit][a.i..a.i + |w|] == m[..limit][a.i..a.i + |w|] == m[a.i..a.i + |w|];
    assert m'[a.i + |w|] == m'[..limit][a.i + |w|] == m[a.i + |w|];
  }

  ghost predicate Tokens(m: seq<byte>, found: seq<Ptr>, words: seq<seq<byte>>, limit: nat) {
    |found| <= |words| && forall k | 0 <= k < |found| :: Token(m, found[k], words[k], limit)
  }

  lemma TokensKept(m: seq<byte>, m': seq<byte>, found: seq<Ptr>, words: seq<seq<byte>>, limit: nat, limit': nat)
    requires Tokens(m, found, words, limit) && |m'| == |m| && limit <= limit' <= |m| && m'[..limit] == m[..limit]
    ensures Tokens(m', found, words, limit')
  {
    forall k | 0 <= k < |found| ensures Token(m', found[k], words[k], limit') {
      TokenKept(m, m', found[k], words[k], limit, limit');
    }
  }

  /** The splitter between two tokens: those found so far, and the string still to split. */
  ghost predicate Splitting(m: seq<byte>, words: seq<seq<byte>>, found: seq<Ptr>, save: Ptr, rest: seq<byte>,
                            limit: nat) {
    && Tokens(m, found, words, limit) && limit <= |m|
    && words[|found|..] == Words(rest)
    && (save.Nil? ==> rest == [])
    && (save.At? ==> limit <= save.i && Spells(m, save.i, rest))
  }

  /** One call of _strtok in the middle of a line. */
  method NextToken(line: array<byte>, save: Ptr, ghost words: seq<seq<byte>>, ghost found: seq<Ptr>,
                   ghost rest: seq<byte>,
                   ghost limit: nat)
    returns (token: Ptr, save': Ptr, ghost rest': seq<byte>, ghost limit': nat)
    requires Splitting(line[..], words, found, save, rest, limit)
    modifies line
    ensures token == Nil <==> |found| == |words|
    ensures token == Nil ==> line[..] == old(line[..])
    ensures token != Nil ==> Splitting(line[..], words, found + [token], save', rest', limit')
  {
    hide Words;
    token, save' := Strtok(line, Nil, save, rest);
    rest', limit' := [], limit;
    if token == Nil { return; }
    ghost var w := Words(rest)[0];
    assert words[|found|] == w && words[|found| + 1..] == Words(rest)[1..];
    limit' := token.i + |w| + 1;
    TakePrefix(line[..], old(line[..]), token.i, limit);
    TokensKept(old(line[..]), line[..], found, words, limit, limit');
    if save'.At? {
      rest' := rest[save'.i - save.i..];
    } else {
      EmptyWords();
    }
  }

  lemma TakePrefix(m: seq<byte>, n: seq<byte>, big: nat, small: nat)
    requires small <= big <= |m| == |n| && m[..big] == n[..big]
    ensures m[..small] == n[..small]
  {
    assert m[..small] == m[..big][..small];
    assert n[..small] == n[..big][..small];
  }

  /** The argument loop of the shell thread on the line `s`.  Command and arguments are the
      words of the line; every pointer still spells its word after all later cuts; with
      more than ten arguments no command is run. */
  method SplitLine(line: array<byte>, ghost s: seq<byte>) returns (cmd: Ptr, args: array<Ptr>, n: nat)
    requires Spells(line[..], 0, s)
    modifies line
    ensures fresh(args) && args.Length == 11 && n < args.Length && args[n] == Nil
    ensures var w := Words(s);
            if w == [] then cmd == Nil && n == 0
            else if |w| > 11 then cmd == Nil
            else
              && n == |w| - 1 && cmd.At? && Spells(line[..], cmd.i, w[0])
              && forall k | 0 <= k < n :: args[k].At? && Spells(line[..], args[k].i, w[k + 1])
  {
    hide Words, Spells, Token;
    args := new Ptr[SHELL_MAX_ARGUMENTS + 1](i => Nil);
    n := 0;
    ghost var words := Words(s);
    var lp, tokp;
    ghost var rest, limit;
    assert words[0..] == words;
    lp, tokp, rest, limit := NextToken(line, At(0), words, [], s, 0);
    cmd := lp;
    if lp == Nil { return; }
    ghost var found := [] + [lp];
    while true
      invariant n < args.Length && fresh(args) && cmd.At?
      invariant Splitting(line[..], words, found, tokp, rest, limit)
      invariant found == [cmd] + args[..n]
      decreases |words| - |found|
    {
      ghost var limit0 := limit;
      lp, tokp, rest, limit := NextToken(line, tokp, words, found, rest, limit);
      if lp == Nil {
        limit := limit0;
        break;
      }
      found := found + [lp];
      if n >= SHELL_MAX_ARGUMENTS {
        cmd := Nil;
        break;
      }
      args[n] := lp;
      n := n + 1;
      assert args[..n] == args[..n - 1] + [lp];
    }
    ghost var kept := args[..n];
    args[n] := Nil;
    assert args[..n] == kept;
    if cmd.At? {
      ArgsSpelled(line[..], words, cmd, kept, limit);
      assert forall k | 0 <= k < n :: args[k] == kept[k];
    }
  }

  lemma ArgsSpelled(m: seq<byte>, words: seq<seq<byte>>, cmd: Ptr, args: seq<Ptr>, limit: nat)
    requires Tokens(m, [cmd] + args, words, limit)
    ensures cmd.At? && Spells(m, cmd.i, words[0])
    ensures forall k | 0 <= k < |args| :: args[k].At? && Spells(m, args[k].i, words[k + 1])
  {
    var found := [cmd] + args;
    assert Token(m, found[0], words[0], limit);
    forall k | 0 <= k < |args| ensures args[k].At? && Spells(m, args[k].i, words[k + 1]) {
      assert found[k + 1] == args[k] && Token(m, found[k + 1], words[k + 1], limit);
    }
  }

  // ----- the line editor

  /** The characters kept, and the longest the line has been. */
  datatype Editing = Editing(stack: seq<byte>, high: nat)

  /** One key: backspace and delete take a character off, printable characters go on while
      there is room, everything else is ignored.  Bytes from 128 on are negative chars and
      count as control characters. */
  function Key(e: Editing, c: byte, size: nat): (r: Editing) {
    if c == 8 || c == 127 then
      if e.stack == [] then e else e.(stack := e.stack[..|e.stack| - 1])
    else if 32 <= c < 127 && |e.stack| + 1 < size then
      var stack := e.stack + [c];
      Editing(stack, if e.high < |stack| then |stack| else e.high)
    else e
  }

  datatype Outcome = Entered(line: seq<byte>) | Aborted | NoInput(e: Editing)

  /** Keys up to return (13), CTRL-D (4) or the end of input. */
  function Session(e: Editing, keys: seq<byte>, size: nat): (r: Outcome)
    decreases |keys|
  {
    if keys == [] then NoInput(e)
    else if keys[0] == 4 then Aborted
    else if keys[0] == 13 then Entered(e.stack)
    else Session(Key(e, keys[0], size), keys[1..], size)
  }

  /** The same outcome, apart from how long the line has been. */
  predicate Alike(a: Outcome, b: Outcome) {
    a == b || (a.NoInput? && b.NoInput? && a.e.stack == b.e.stack)
  }

  lemma {:induction false} SameStack(d: Editing, e: Editing, keys: seq<byte>, size: nat)
    requires d.stack == e.stack
    ensures Alike(Session(d, keys, size), Session(e, keys, size))
    decreases |keys|
  {
    if keys != [] && keys[0] != 4 && keys[0] != 13 {
      SameStack(Key(d, keys[0], size), Key(e, keys[0], size), keys[1..], size);
    }
  }

  /** Printable keys and return give the keys, as many as there is room for with the NUL. */
  lemma {:induction false} TypedLine(e: Editing, keys: seq<byte>, size: nat)
    requires |e.stack| < size && forall k | 0 <= k < |keys| :: 32 <= keys[k] < 127
    ensures var room := size - 1 - |e.stack|;
            Session(e, keys + [13], size) == Entered(e.stack + keys[..if |keys| < room then |keys| else room])
    decreases |keys|
  {
    if keys == [] {
      assert e.stack + [] == e.stack;
    } else {
      var room := size - 1 - |e.stack|;
      var next := Key(e, keys[0], size);
      assert (keys + [13])[1..] == keys[1..] + [13];
      TypedLine(next, keys[1..], size);
      if room > 0 {
        var n := if |keys| < room then |keys| else room;
        assert next.stack + keys[1..][..n - 1] == e.stack + keys[..n];
      } else {
        assert e.stack + keys[..0] == e.stack + keys[1..][..0];
      }
    }
  }

  /** At any point of a session: a printable key that fits, followed by backspace or delete, is
      as if neither was typed; backspace on an empty line, a printable key without room, control
      characters and bytes from 128 on do nothing. */
  lemma UndoneKeys(e: Editing, c: byte, del: byte, keys: seq<byte>, size: nat)
    requires del == 8 || del == 127
    ensures 32 <= c < 127 && |e.stack| + 1 < size ==>
              Alike(Session(e, [c, del] + keys, size), Session(e, keys, size))
    ensures e.stack == [] ==> Session(e, [del] + keys, size) == Session(e, keys, size)
    ensures 32 <= c < 127 && |e.stack| + 1 >= size ==> Session(e, [c] + keys, size) == Session(e, keys, size)
    ensures (c < 32 && c != 4 && c != 8 && c != 13) || c >= 128 ==>
              Session(e, [c] + keys, size) == Session(e, keys, size)
  {
    assert ([c, del] + keys)[1..] == [del] + keys && ([del] + keys)[1..] == keys && ([c] + keys)[1..] == keys;
    if 32 <= c < 127 && |e.stack| + 1 < size {
      var d := Key(Key(e, c, size), del, size);
      assert d.stack == e.stack;
      SameStack(d, e, keys, size);
      assert Session(e, [c, del] + keys, size) == Session(Key(e, c, size), [del] + keys, size);
      assert Session(Key(e, c, size), [del] + keys, size) == Session(d, keys, size);
    }
  }

  /** The buffer during editing: the stack, and behind it leftovers up to the mark. */
  predicate Buffered(m: seq<byte>, e: Editing, size: nat) {
    && |e.stack| <= e.high < size <= |m|
    && m[..|e.stack|] == e.stack
    && (forall k | 0 <= k < e.high :: m[k] != 0)
    && (forall k | e.high <= k < size :: m[k] == 0)
  }

  /** shellGetLine.  After return the buffer holds the edited line as a string.  When the
      input ends instead, nothing is terminated: the buffer then spells the edited line
      exactly when no deleted character is left behind it. */
  method GetLine(line: array<byte>, size: nat, keys: seq<byte>) returns (abort: bool)
    requires 0 < size <= line.Length
    modifies line
    ensures match Session(Editing([], 0), keys, size)
            case Entered(s) => !abort && Spells(line[..], 0, s) && |s| < size
            case Aborted => abort
            case NoInput(e) => !abort && (Spells(line[..], 0, e.stack) <==> |e.stack| == e.high)
    ensures line[size..] == old(line[size..])
  {
    ghost var tail := line[size..];
    Clear(line, size);
    var p, i := 0, 0;
    ghost var e := Editing([], 0);
    assert keys[0..] == keys;
    while true
      invariant p == |e.stack| && i <= |keys| && Buffered(line[..], e, size) && line[size..] == tail
      invariant Session(Editing([], 0), keys, size) == Session(e, keys[i..], size)
      decreases |keys| - i
    {
      if i == |keys| {
        BufferedSpells(line[..], e, size);
        return false;
      }
      var c := keys[i];
      assert keys[i..][0] == c && keys[i..][1..] == keys[i + 1..];
      i := i + 1;
      if c == 4 { return true; }
      if c == 8 || c == 127 {
        if p != 0 {
          p := p - 1;
          assert line[..p] == e.stack[..p];
          e := e.(stack := e.stack[..p]);
        }
        continue;
      }
      if c == 13 {
        ghost var m := line[..];
        line[p] := 0;
        assert line[..p] == m[..p] && line[size..] == m[size..];
        assert forall k | 0 <= k < p :: line[k] == m[k] != 0;
        return false;
      }
      if c < 0x20 || c >= 128 { continue; }
      if p + 1 < size {
        ghost var m := line[..];
        line[p] := c;
        p := p + 1;
        assert line[..p] == m[..p - 1] + [c] && line[size..] == m[size..];
        e := Key(e, c, size);
      }
    }
  }

  method Clear(line: array<byte>, size: nat)
    requires size <= line.Length
    modifies line
    ensures forall k | 0 <= k < size :: line[k] == 0
    ensures line[size..] == old(line[size..])
  {
    for i := 0 to size
      invariant forall k | 0 <= k < i :: line[k] == 0
      invariant line[size..] == old(line[size..])
    {
      line[i] := 0;
    }
  }

  lemma BufferedSpells(m: seq<byte>, e: Editing, size: nat)
    requires Buffered(m, e, size)
    ensures Spells(m, 0, e.stack) <==> |e.stack| == e.high
  {
    assert forall k | 0 <= k < |e.stack| :: e.stack[k] == m[..|e.stack|][k] == m[k];
  }
}
