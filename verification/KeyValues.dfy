/** Key/value lists as on the kernel command line, with quotes. */
module KeyValues {
  const QUOTE: char := '"'

  /** What separates pairs, what separates a key from its value, and what may stand around the latter. */
  datatype Syntax = Syntax(delim: char, eq: char, padding: set<char>)

  const CMDLINE := Syntax(' ', '=', {})
  const BOOTCONFIG := Syntax('\n', '=', {' '})
  const PARTITION_MAP := Syntax(';', ',', {})

  predicate Sound(x: Syntax) {
    x.delim != x.eq && x.delim !in x.padding && QUOTE !in {x.delim, x.eq} && QUOTE !in x.padding
  }

  lemma AllSound()
    ensures Sound(CMDLINE) && Sound(BOOTCONFIG) && Sound(PARTITION_MAP)
  {
  }

  type Pairs = seq<(string, string)>

  function Blanks(x: Syntax): set<char> { {x.eq} + x.padding }

  /* ----- the meaning of a text ----- */

  /** The text taken, what is left, and whether a quote is open. */
  datatype Taken = Taken(text: string, left: string, quoted: bool)

  predicate Stops(c: char, quoted: bool, escapes: set<char>, breaks: set<char>) {
    c in breaks || (!quoted && c in escapes)
  }

  /** Up to a break, or, outside quotes, up to an escape; quotes are dropped. */
  function Take(s: string, quoted: bool, escapes: set<char>, breaks: set<char>): (r: Taken)
    ensures |r.left| <= |s|
    ensures s != [] && !Stops(s[0], quoted, escapes, breaks) ==> |r.left| < |s|
    ensures r.left != [] ==> Stops(r.left[0], r.quoted, escapes, breaks)
  {
    if s == [] || Stops(s[0], quoted, escapes, breaks) then Taken([], s, quoted)
    else if s[0] == QUOTE then Take(s[1..], !quoted, escapes, breaks)
    else var r := Take(s[1..], quoted, escapes, breaks); r.(text := [s[0]] + r.text)
  }

  function Skip(s: string, cs: set<char>): (r: string)
    ensures |r| <= |s|
    ensures s != [] && s[0] in cs ==> |r| < |s|
    ensures r != [] ==> r[0] !in cs
  {
    if s == [] || s[0] !in cs then s else Skip(s[1..], cs)
  }

  /** The key at the front and what follows the equals sign. */
  function Key(x: Syntax, s: string, quoted: bool): (r: Taken)
    ensures |r.left| <= |s|
  {
    var k := Take(s, quoted, x.padding + {x.delim}, {x.eq});
    k.(left := Skip(k.left, Blanks(x)))
  }

  function Parse(x: Syntax, s: string, quoted: bool): Pairs
    decreases |s|
  {
    if s == [] then []
    else
      var k := Key(x, s, quoted);
      if k.left == [] || k.left[0] == x.delim then [(k.text, "")] + Parse(x, Skip(k.left, {x.delim}), k.quoted)
      else
        var v := Take(k.left, k.quoted, {x.delim}, {});
        [(k.text, v.text)] + Parse(x, Skip(v.left, {x.delim}), v.quoted)
  }

  /* ----- the parser ----- */

  /** The first place from `pos` on with a character of `cs`, or the end. */
  method FindFirstOf(s: string, cs: set<char>, pos: nat) returns (cur: nat)
    requires pos <= |s|
    ensures pos <= cur <= |s| && (cur < |s| ==> s[cur] in cs)
    ensures forall i :: pos <= i < cur ==> s[i] !in cs
  {
    cur := pos;
    while cur < |s| && s[cur] !in cs
      invariant pos <= cur <= |s| && forall i :: pos <= i < cur ==> s[i] !in cs
    {
      cur := cur + 1;
    }
  }

  lemma SkipNext(s: string, cs: set<char>, cur: nat)
    requires cur < |s| && s[cur] in cs
    ensures Skip(s[cur..], cs) == Skip(s[cur + 1..], cs)
  {
  }

  method FindFirstNotOf(s: string, cs: set<char>, pos: nat) returns (cur: nat)
    requires pos <= |s|
    ensures pos <= cur <= |s| && s[cur..] == Skip(s[pos..], cs)
  {
    cur := pos;
    while cur < |s| && s[cur] in cs
      invariant pos <= cur <= |s| && Skip(s[cur..], cs) == Skip(s[pos..], cs)
    {
      SkipNext(s, cs, cur);
      cur := cur + 1;
    }
  }

  function Before(t: string, r: Taken): Taken { r.(text := t + r.text) }

  lemma BeforeBefore(a: string, b: string, r: Taken)
    ensures Before(a, Before(b, r)) == Before(a + b, r)
  {
    assert a + (b + r.text) == a + b + r.text;
  }

  /** Characters that neither stop nor quote go to the text. */
  lemma {:induction false} TakeRun(t: string, s: string, quoted: bool, escapes: set<char>, breaks: set<char>)
    requires forall i :: 0 <= i < |t| ==> !Stops(t[i], quoted, escapes, breaks) && t[i] != QUOTE
    ensures Take(t + s, quoted, escapes, breaks) == Before(t, Take(s, quoted, escapes, breaks))
    decreases |t|
  {
    if t == [] {
      assert t + s == s;
    } else {
      assert (t + s)[1..] == t[1..] + s;
      TakeRun(t[1..], s, quoted, escapes, breaks);
      assert [t[0]] + (t[1..] + Take(s, quoted, escapes, breaks).text) == t + Take(s, quoted, escapes, breaks).text;
    }
  }

  lemma TakeTo(s: string, pos: nat, cur: nat, quoted: bool, escapes: set<char>, breaks: set<char>)
    requires pos <= cur <= |s|
    requires forall i :: pos <= i < cur ==> !Stops(s[i], quoted, escapes, breaks) && s[i] != QUOTE
    ensures Take(s[pos..], quoted, escapes, breaks) == Before(s[pos..cur], Take(s[cur..], quoted, escapes, breaks))
  {
    assert s[pos..] == s[pos..cur] + s[cur..];
    TakeRun(s[pos..cur], s[cur..], quoted, escapes, breaks);
  }

  method Extract(s: string, start: nat, open: bool, escapes: set<char>, breaks: set<char>)
    returns (r: string, pos: nat, quoted: bool)
    requires start <= |s| && QUOTE !in escapes && QUOTE !in breaks
    ensures start <= pos <= |s|
    ensures Take(s[start..], open, escapes, breaks) == Taken(r, s[pos..], quoted)
  {
    hide Take, Stops;
    r, pos, quoted := [], start, open;
    var cur := start;
    EmptyBefore(Take(s[start..], open, escapes, breaks));
    while true
      invariant start <= pos <= cur <= |s|
      invariant forall i :: pos <= i < cur ==> !Stops(s[i], quoted, escapes, breaks) && s[i] != QUOTE
      invariant Take(s[start..], open, escapes, breaks) == Before(r, Take(s[pos..], quoted, escapes, breaks))
      decreases |s| - cur
    {
      var next := FindFirstOf(s, escapes + breaks + {QUOTE}, cur);
      PlainRun(s, cur, next, quoted, escapes, breaks);
      cur := next;
      TakeTo(s, pos, cur, quoted, escapes, breaks);
      BeforeBefore(r, s[pos..cur], Take(s[cur..], quoted, escapes, breaks));
      if cur == |s| || s[cur] in breaks || (!quoted && s[cur] in escapes) {
        TakeNone(s[cur..], quoted, escapes, breaks);
        r := r + s[pos..cur];
        pos := cur;
        return;
      }
      StopsNot(s[cur], quoted, escapes, breaks);
      if s[cur] == QUOTE {
        TakeQuote(s, cur, quoted, escapes, breaks);
        quoted := !quoted;
        r := r + s[pos..cur];
        pos := cur + 1;
      }
      cur := cur + 1;
    }
  }

  lemma EmptyBefore(r: Taken)
    ensures Before([], r) == r
  {
    assert [] + r.text == r.text;
  }

  lemma StopsNot(c: char, quoted: bool, escapes: set<char>, breaks: set<char>)
    ensures Stops(c, quoted, escapes, breaks) <==> c in breaks || (!quoted && c in escapes)
  {
  }

  lemma PlainRun(s: string, pos: nat, cur: nat, quoted: bool, escapes: set<char>, breaks: set<char>)
    requires pos <= cur <= |s| && forall i :: pos <= i < cur ==> s[i] !in escapes + breaks + {QUOTE}
    ensures forall i :: pos <= i < cur ==> !Stops(s[i], quoted, escapes, breaks) && s[i] != QUOTE
  {
  }

  lemma TakeNone(s: string, quoted: bool, escapes: set<char>, breaks: set<char>)
    requires s == [] || s[0] in breaks || (!quoted && s[0] in escapes)
    ensures Take(s, quoted, escapes, breaks) == Taken([], s, quoted)
  {
  }

  lemma TakeQuote(s: string, cur: nat, quoted: bool, escapes: set<char>, breaks: set<char>)
    requires cur < |s| && s[cur] == QUOTE && !Stops(QUOTE, quoted, escapes, breaks)
    ensures Take(s[cur..], quoted, escapes, breaks) == Take(s[cur + 1..], !quoted, escapes, breaks)
  {
    assert s[cur..][1..] == s[cur + 1..];
  }

  lemma ParseNoValue(x: Syntax, s: string, quoted: bool)
    requires s != [] && (Key(x, s, quoted).left == [] || Key(x, s, quoted).left[0] == x.delim)
    ensures var k := Key(x, s, quoted);
            Parse(x, s, quoted) == [(k.text, "")] + Parse(x, Skip(k.left, {x.delim}), k.quoted) &&
            |Skip(k.left, {x.delim})| < |s|
  {
    hide Key;
  }

  lemma ParseValue(x: Syntax, s: string, quoted: bool, v: Taken)
    requires s != [] && Key(x, s, quoted).left != [] && Key(x, s, quoted).left[0] != x.delim
    requires v == Take(Key(x, s, quoted).left, Key(x, s, quoted).quoted, {x.delim}, {})
    ensures Parse(x, s, quoted) == [(Key(x, s, quoted).text, v.text)] + Parse(x, Skip(v.left, {x.delim}), v.quoted)
    ensures |Skip(v.left, {x.delim})| < |s|
  {
    hide Key;
  }

  /** One pair. */
  method ParsePair(x: Syntax, s: string, start: nat, open: bool)
    returns (pair: (string, string), pos: nat, quoted: bool)
    requires Sound(x) && start < |s|
    ensures start < pos <= |s|
    ensures Parse(x, s[start..], open) == [pair] + Parse(x, s[pos..], quoted)
  {
    hide Take, Skip, Parse;
    var key, value;
    key, pos, quoted := Extract(s, start, open, x.padding + {x.delim}, {x.eq});
    pos := FindFirstNotOf(s, Blanks(x), pos);
    assert Key(x, s[start..], open) == Taken(key, s[pos..], quoted);
    if pos == |s| || s[pos] == x.delim {
      ParseNoValue(x, s[start..], open);
      pair := (key, "");
    } else {
      ParseValue(x, s[start..], open, Take(s[pos..], quoted, {x.delim}, {}));
      value, pos, quoted := Extract(s, pos, quoted, {x.delim}, {});
      pair := (key, value);
    }
    pos := FindFirstNotOf(s, {x.delim}, pos);
  }

  /** The loop reads every text, with quotes that match or not, as `Parse` says. */
  method ParseAll(x: Syntax, s: string) returns (kv: Pairs)
    requires Sound(x)
    ensures kv == Parse(x, s, false)
  {
    kv := [];
    var quoted, pos := false, 0;
    while pos < |s|
      invariant pos <= |s| && kv + Parse(x, s[pos..], quoted) == Parse(x, s, false)
      decreases |s| - pos
    {
      hide Parse;
      var pair;
      ghost var was := Parse(x, s[pos..], quoted);
      pair, pos, quoted := ParsePair(x, s, pos, quoted);
      assert kv + was == kv + [pair] + Parse(x, s[pos..], quoted);
      kv := kv + [pair];
    }
  }

  /* ----- printing ----- */

  /**
    A pair and how it is written: what stands before and after the equals sign, quotes or not, and the delimiters that
    follow; or a key by itself.
  */
  datatype Item =
    | Item(key: string, before: string, after: string, value: string, inQuotes: bool, delims: string)
    | Bare(key: string, before: string, delims: string)

  predicate Free(s: string, cs: set<char>) { forall i :: 0 <= i < |s| ==> s[i] !in cs }

  predicate Only(s: string, cs: set<char>) { forall i :: 0 <= i < |s| ==> s[i] in cs }

  predicate Writable(x: Syntax, m: Item) {
    m.key != [] && Free(m.key, x.padding + {x.delim, x.eq, QUOTE}) &&
    Only(m.before, x.padding) && Only(m.delims, {x.delim}) &&
    (m.Item? ==> Only(m.after, Blanks(x)) && Free(m.value, {QUOTE})) &&
    (m.Item? && !m.inQuotes ==> Free(m.value, {x.delim}) && (m.value != [] ==> m.value[0] !in Blanks(x)))
  }

  function Written(m: Item): string
    requires m.Item?
  {
    if m.inQuotes then [QUOTE] + m.value + [QUOTE] else m.value
  }

  function Text(x: Syntax, m: Item): string {
    match m
    case Item(_, _, _, _, _, _) => m.key + m.before + [x.eq] + m.after + Written(m) + m.delims
    case Bare(_, _, _) => m.key + m.before + m.delims
  }

  /** A line: every pair but the last is followed by a delimiter. */
  ghost predicate WritableAll(x: Syntax, ms: seq<Item>) {
    (forall i :: 0 <= i < |ms| ==> Writable(x, ms[i])) && (forall i :: 0 <= i < |ms| - 1 ==> ms[i].delims != [])
  }

  function Line(x: Syntax, ms: seq<Item>): string { if ms == [] then [] else Text(x, ms[0]) + Line(x, ms[1..]) }

  function PairOf(m: Item): (string, string) { (m.key, if m.Item? then m.value else "") }

  function PairsOf(ms: seq<Item>): Pairs { if ms == [] then [] else [PairOf(ms[0])] + PairsOf(ms[1..]) }

  lemma {:induction false} SkipRun(t: string, s: string, cs: set<char>)
    requires Only(t, cs)
    ensures Skip(t + s, cs) == Skip(s, cs)
    decreases |t|
  {
    if t == [] {
      assert t + s == s;
    } else {
      assert (t + s)[1..] == t[1..] + s;
      SkipRun(t[1..], s, cs);
    }
  }

  lemma SkipNone(s: string, cs: set<char>)
    requires s == [] || s[0] !in cs
    ensures Skip(s, cs) == s
  {
  }

  lemma KeyOfItem(x: Syntax, m: Item, rest: string)
    requires Sound(x) && m.Item? && Writable(x, m) && (rest == [] || rest[0] !in Blanks(x))
    ensures Key(x, m.key + (m.before + [x.eq] + m.after + rest), false) == Taken(m.key, rest, false)
  {
    hide Take, Skip;
    var tail := m.before + [x.eq] + m.after + rest;
    TakeRun(m.key, tail, false, x.padding + {x.delim}, {x.eq});
    assert tail[0] == if m.before == [] then x.eq else m.before[0];
    TakeNone(tail, false, x.padding + {x.delim}, {x.eq});
    assert m.key + [] == m.key;
    SkipRun(m.before + [x.eq] + m.after, rest, Blanks(x));
    SkipNone(rest, Blanks(x));
  }

  lemma KeyOfBare(x: Syntax, m: Item, rest: string)
    requires Sound(x) && m.Bare? && Writable(x, m) && (rest == [] || rest[0] == x.delim)
    ensures Key(x, m.key + (m.before + rest), false) == Taken(m.key, rest, false)
  {
    hide Take, Skip;
    var tail := m.before + rest;
    TakeRun(m.key, tail, false, x.padding + {x.delim}, {x.eq});
    assert tail != [] ==> tail[0] == if m.before == [] then x.delim else m.before[0];
    TakeNone(tail, false, x.padding + {x.delim}, {x.eq});
    assert m.key + [] == m.key;
    SkipRun(m.before, rest, Blanks(x));
    SkipNone(rest, Blanks(x));
  }

  lemma ValueOfItem(x: Syntax, m: Item, rest: string)
    requires Sound(x) && m.Item? && Writable(x, m) && (rest == [] || rest[0] == x.delim)
    ensures Take(Written(m) + rest, false, {x.delim}, {}) == Taken(m.value, rest, false)
  {
    hide Take;
    assert m.value + [] == m.value;
    TakeNone(rest, false, {x.delim}, {});
    if m.inQuotes {
      var s := Written(m) + rest;
      var close := [QUOTE] + rest;
      TakeQuote(s, 0, false, {x.delim}, {});
      assert s[0..] == s && s[1..] == m.value + close;
      TakeRun(m.value, close, true, {x.delim}, {});
      TakeQuote(close, 0, true, {x.delim}, {});
      assert close[0..] == close && close[1..] == rest;
    } else {
      TakeRun(m.value, rest, false, {x.delim}, {});
    }
  }

  lemma ParseBare(x: Syntax, m: Item, rest: string)
    requires Sound(x) && m.Bare? && Writable(x, m)
    requires (m.delims == [] ==> rest == []) && (rest == [] || rest[0] != x.delim)
    ensures Parse(x, Text(x, m) + rest, false) == [(m.key, "")] + Parse(x, rest, false)
  {
    hide Take, Skip, Parse, Key;
    var end := m.delims + rest;
    var s := Text(x, m) + rest;
    SkipRun(m.delims, rest, {x.delim});
    SkipNone(rest, {x.delim});
    assert s == m.key + (m.before + end);
    KeyOfBare(x, m, end);
    ParseNoValue(x, s, false);
  }

  lemma ItemText(x: Syntax, m: Item, rest: string)
    requires m.Item?
    ensures Text(x, m) + rest == m.key + (m.before + [x.eq] + m.after + (Written(m) + (m.delims + rest)))
  {
    hide Written;
  }

  lemma WrittenStarts(x: Syntax, m: Item, end: string)
    requires Sound(x) && m.Item? && Writable(x, m) && (end == [] || end[0] == x.delim)
    ensures var s := Written(m) + end; s == [] || s[0] !in Blanks(x)
    ensures Written(m) != [] ==> Written(m)[0] != x.delim
    ensures Written(m) == [] ==> m.value == []
  {
  }

  lemma ParseItem(x: Syntax, m: Item, rest: string)
    requires Sound(x) && m.Item? && Writable(x, m)
    requires (m.delims == [] ==> rest == []) && (rest == [] || rest[0] != x.delim)
    ensures Parse(x, Text(x, m) + rest, false) == [(m.key, m.value)] + Parse(x, rest, false)
  {
    hide Take, Skip, Parse, Key, Text, Written;
    var end := m.delims + rest;
    var s := Text(x, m) + rest;
    SkipRun(m.delims, rest, {x.delim});
    SkipNone(rest, {x.delim});
    ItemText(x, m, rest);
    WrittenStarts(x, m, end);
    KeyOfItem(x, m, Written(m) + end);
    if Written(m) == [] {
      assert Written(m) + end == end;
      ParseNoValue(x, s, false);
    } else {
      ValueOfItem(x, m, end);
      ParseValue(x, s, false, Taken(m.value, end, false));
    }
  }

  /** One pair, however it is written. */
  lemma ParseOne(x: Syntax, m: Item, rest: string)
    requires Sound(x) && Writable(x, m) && (m.delims == [] ==> rest == []) && (rest == [] || rest[0] != x.delim)
    ensures Parse(x, Text(x, m) + rest, false) == [PairOf(m)] + Parse(x, rest, false)
  {
    hide Parse, Text, Writable, Sound;
    if m.Item? {
      ParseItem(x, m, rest);
    } else {
      ParseBare(x, m, rest);
    }
  }

  /** Reading a printed list gives the list back, for any admissible spacing and quoting. */
  lemma {:induction false} ParseUndoesPrint(x: Syntax, ms: seq<Item>)
    requires Sound(x) && WritableAll(x, ms)
    ensures Parse(x, Line(x, ms), false) == PairsOf(ms)
    decreases |ms|
  {
    hide Parse, Text;
    if ms == [] {
      ParseNothing(x);
    } else {
      var rest := Line(x, ms[1..]);
      ParseUndoesPrint(x, ms[1..]);
      if ms[1..] != [] {
        assert Writable(x, ms[1]) && ms[1..][0] == ms[1];
        TextStarts(x, ms[1]);
      }
      ParseOne(x, ms[0], rest);
    }
  }

  lemma ParseNothing(x: Syntax)
    ensures Parse(x, [], false) == []
  {
  }

  lemma TextStarts(x: Syntax, m: Item)
    requires Writable(x, m)
    ensures Text(x, m) != [] && Text(x, m)[0] != x.delim
  {
  }

  /** A delimiter in front is read as a pair of empty strings. */
  lemma LeadingDelimiter(x: Syntax, s: string)
    requires Sound(x) && s != [] && s[0] == x.delim
    ensures Parse(x, s, false) == [("", "")] + Parse(x, Skip(s, {x.delim}), false)
  {
    hide Parse;
    TakeNone(s, false, x.padding + {x.delim}, {x.eq});
    SkipNone(s, Blanks(x));
    ParseNoValue(x, s, false);
  }

  /* ----- the three files ----- */

  /** No quote, equals sign or separator in a key, no quote or separator in a value, none of them in front of it. */
  predicate Plain(key: string, value: string, stops: string) {
    key != "" && (forall i :: 0 <= i < |key| ==> key[i] !in stops && key[i] != '"') &&
    forall i :: 0 <= i < |value| ==> value[i] !in stops && value[i] != '"'
  }

  /** The kernel command line: a pair, a pair in quotes, and a key by itself. */
  lemma CommandLinePair(k: string, v: string, rest: string)
    requires Plain(k, v, " =") && (rest == "" || rest[0] != ' ')
    ensures Parse(CMDLINE, k + "=" + v + " " + rest, false) == [(k, v)] + Parse(CMDLINE, rest, false)
  {
    hide Parse;
    var m := Item(k, "", "", v, false, " ");
    ParseOne(CMDLINE, m, rest);
    assert Text(CMDLINE, m) + rest == k + "=" + v + " " + rest;
  }

  lemma CommandLineQuoted(k: string, v: string, rest: string)
    requires Plain(k, "", " =") && '"' !in v && (rest == "" || rest[0] != ' ')
    ensures Parse(CMDLINE, k + "=\"" + v + "\" " + rest, false) == [(k, v)] + Parse(CMDLINE, rest, false)
  {
    hide Parse;
    var m := Item(k, "", "", v, true, " ");
    ParseOne(CMDLINE, m, rest);
    assert Text(CMDLINE, m) + rest == k + "=\"" + v + "\" " + rest;
  }

  lemma CommandLineKey(k: string, rest: string)
    requires Plain(k, "", " =") && (rest == "" || rest[0] != ' ')
    ensures Parse(CMDLINE, k + " " + rest, false) == [(k, "")] + Parse(CMDLINE, rest, false)
  {
    hide Parse;
    var m := Bare(k, "", " ");
    ParseOne(CMDLINE, m, rest);
    assert Text(CMDLINE, m) + rest == k + " " + rest;
  }

  /** A line of the boot configuration, with blanks around the equals sign. */
  lemma BootConfigLine(k: string, v: string, rest: string)
    requires Plain(k, v, " =\n") && (rest == "" || rest[0] != '\n')
    ensures Parse(BOOTCONFIG, k + " = " + v + "\n" + rest, false) == [(k, v)] + Parse(BOOTCONFIG, rest, false)
  {
    hide Parse;
    var m := Item(k, " ", " ", v, false, "\n");
    ParseOne(BOOTCONFIG, m, rest);
    assert Text(BOOTCONFIG, m) + rest == k + " = " + v + "\n" + rest;
  }

  /** An entry of the partition map. */
  lemma PartitionEntry(k: string, v: string, rest: string)
    requires Plain(k, v, ";,") && (rest == "" || rest[0] != ';')
    ensures Parse(PARTITION_MAP, k + "," + v + ";" + rest, false) == [(k, v)] + Parse(PARTITION_MAP, rest, false)
  {
    hide Parse;
    var m := Item(k, "", "", v, false, ";");
    ParseOne(PARTITION_MAP, m, rest);
    assert Text(PARTITION_MAP, m) + rest == k + "," + v + ";" + rest;
  }
}
