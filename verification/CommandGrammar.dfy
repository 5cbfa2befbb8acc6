/** The grammar of command parameters, `key key=value key="quoted \"value\""`, and a printer for it. */
module CommandGrammar {
  import opened Wrappers

  const INVALID_INPUT := -1
  const OUT_OF_MEMORY := -2
  const INVALID_KEY := -10
  const UNTERMINATED_QUOTED_KEY := -11
  const UNTERMINATED_ESCAPE := -12

  const NUL := '\0'

  /** The text of a C string, without its terminator. */
  type Text = s: string | NUL !in s

  datatype Entry = Entry(key: string, value: Option<string>)

  /** `Overrun`: the scanner steps past the terminator of the string. */
  datatype Outcome = Parsed(entries: seq<Entry>) | Rejected(code: int) | Overrun

  // ---------- Scanning ----------

  predicate StartsWith(t: string, c: char) {
    t != [] && t[0] == c
  }

  function SpaceLength(t: string): (n: nat)
    ensures n <= |t|
  {
    if StartsWith(t, ' ') then 1 + SpaceLength(t[1..]) else 0
  }

  function SkipSpaces(t: string): string {
    t[SpaceLength(t)..]
  }

  function KeyLength(t: string): (n: nat)
    ensures n <= |t|
  {
    if t == [] || t[0] == ' ' || t[0] == '=' then 0 else 1 + KeyLength(t[1..])
  }

  function PlainLength(t: string): (n: nat)
    ensures n <= |t|
  {
    if t == [] || t[0] == ' ' then 0 else 1 + PlainLength(t[1..])
  }

  /** The length of a quoted value after its opening quote, up to its closing quote or the end of the text. */
  function QuotedLength(t: string): (n: Option<nat>)
    ensures n.Some? ==> n.value <= |t| && (n.value < |t| ==> t[n.value] == '"')
  {
    if t == [] || t[0] == '"' then Some(0)
    else if t[0] != '\\' then Longer(1, QuotedLength(t[1..]))
    else if |t| == 1 then None
    else Longer(2, QuotedLength(t[2..]))
  }

  function Longer(k: nat, n: Option<nat>): Option<nat> {
    if n.Some? then Some(k + n.value) else None
  }

  /** The value that a quoted text stands for; None for an escape at the end. */
  function Unescape(t: string): Option<string> {
    if t == [] then Some([])
    else if t[0] != '\\' then
      var rest := Unescape(t[1..]);
      if rest.Some? then Some([t[0]] + rest.value) else None
    else if |t| == 1 then None
    else
      var rest := Unescape(t[2..]);
      if rest.Some? then Some([t[1]] + rest.value) else None
  }

  // ---------- Parsing ----------

  function NonEmpty(v: string): Option<string> {
    if v == [] then None else Some(v)
  }

  function Prepend(entries: seq<Entry>, rest: Outcome): Outcome {
    if rest.Parsed? then Parsed(entries + rest.entries) else rest
  }

  /** A value and the length of its text, from the '=' on, or why there is none. */
  datatype ValueOutcome = ReadValue(value: Option<string>, length: nat) | BadValue(code: int) | ValueOverrun

  /** The value that follows a key. */
  function ParseValue(t: string): (r: ValueOutcome)
    ensures r.ReadValue? ==> r.length <= |t|
    ensures r.BadValue? ==> r.code < 0
  {
    if !StartsWith(t, '=') then ReadValue(None, 0)
    else
      var v := t[1..];
      if !StartsWith(v, '"') then ReadValue(NonEmpty(v[..PlainLength(v)]), 1 + PlainLength(v))
      else
        match QuotedLength(v[1..])
        case None => ValueOverrun
        case Some(m) =>
          if 1 + m == |v| then BadValue(UNTERMINATED_QUOTED_KEY)
          else
            match Unescape(v[1..1 + m])
            case None => BadValue(UNTERMINATED_ESCAPE)
            case Some(value) => ReadValue(NonEmpty(value), m + 3)
  }

  /** An entry and the length of its text, or why there is none. */
  datatype EntryOutcome = Read(entry: Entry, length: nat) | BadEntry(code: int) | EntryOverrun

  /** The entry that `t` starts with; `t` does not start with a space. */
  function ParseEntry(t: string): (r: EntryOutcome)
    ensures r.Read? ==> 0 < r.length <= |t|
    ensures r.BadEntry? ==> r.code < 0
  {
    var n := KeyLength(t);
    if n == 0 then BadEntry(INVALID_KEY)
    else
      match ParseValue(t[n..])
      case ValueOverrun => EntryOverrun
      case BadValue(code) => BadEntry(code)
      case ReadValue(value, length) => Read(Entry(t[..n], value), n + length)
  }

  /** The entries of a text that does not start with a space. */
  function ParseEntries(t: string): Outcome
    decreases |t|
  {
    if t == [] then Parsed([])
    else
      match ParseEntry(t)
      case EntryOverrun => Overrun
      case BadEntry(code) => Rejected(code)
      case Read(entry, length) => Prepend([entry], ParseEntries(SkipSpaces(t[length..])))
  }

  function Parse(text: string): Outcome {
    ParseEntries(SkipSpaces(text))
  }

  /** The entries before the end of a text, or before the one that makes it unacceptable. */
  function ReadEntries(t: string): seq<Entry>
    decreases |t|
  {
    if t == [] || !ParseEntry(t).Read? then []
    else [ParseEntry(t).entry] + ReadEntries(SkipSpaces(t[ParseEntry(t).length..]))
  }

  // ---------- The scanner and the unescaper agree ----------

  /** A scanned quoted text pairs its backslashes, so the unescaper never meets an unterminated escape. */
  lemma {:induction false} ScannedUnescapes(t: string)
    requires QuotedLength(t).Some?
    ensures var body := t[..QuotedLength(t).value];
            Unescape(body).Some? && |Unescape(body).value| <= |body| && (body != [] ==> Unescape(body).value != [])
    decreases |t|
  {
    if t != [] && t[0] != '"' {
      var n := QuotedLength(t).value;
      if t[0] != '\\' {
        ScannedUnescapes(t[1..]);
        assert t[..n][1..] == t[1..][..n - 1];
      } else {
        ScannedUnescapes(t[2..]);
        assert t[..n][2..] == t[2..][..n - 2];
      }
    }
  }

  lemma ValueIsUnescapable(t: string)
    ensures ParseValue(t) != BadValue(UNTERMINATED_ESCAPE)
  {
    if StartsWith(t, '=') && StartsWith(t[1..], '"') && QuotedLength(t[1..][1..]).Some? {
      var body := t[1..][1..];
      ScannedUnescapes(body);
      assert t[1..][1..1 + QuotedLength(body).value] == body[..QuotedLength(body).value];
    }
  }

  /** Hence the parser never reports an unterminated escape. */
  lemma {:induction false} NoUnterminatedEscape(t: string)
    ensures ParseEntries(t) != Rejected(UNTERMINATED_ESCAPE)
    decreases |t|
  {
    hide ParseValue;
    if t != [] {
      ValueIsUnescapable(t[KeyLength(t)..]);
      if ParseEntry(t).Read? {
        NoUnterminatedEscape(SkipSpaces(t[ParseEntry(t).length..]));
      }
    }
  }

  /** Without a backslash there is nothing to unescape. */
  lemma {:induction false} PlainUnescapes(t: string)
    requires '\\' !in t
    ensures Unescape(t) == Some(t)
  {
    if t != [] {
      PlainUnescapes(t[1..]);
      assert t == [t[0]] + t[1..];
    }
  }

  /** How many backslashes stand directly before the `i`-th character. */
  function Slashes(t: string, i: nat): nat
    requires i <= |t|
  {
    if i == 0 || t[i - 1] != '\\' then 0 else 1 + Slashes(t, i - 1)
  }

  predicate Escaped(t: string, i: nat)
    requires i <= |t|
  {
    Slashes(t, i) % 2 == 1
  }

  lemma {:induction false} EscapedAfter(t: string, k: nat, i: nat)
    requires k <= i <= |t| && (if k == 1 then t[0] != '\\' else k == 2 && t[0] == '\\')
    ensures Escaped(t, i) == Escaped(t[k..], i - k)
  {
    if k < i {
      EscapedAfter(t, k, i - 1);
    } else if k == 2 {
      assert Slashes(t, 1) == 1;
    }
  }

  /** Every quote before `n` is escaped. */
  ghost predicate NoQuoteBefore(t: string, n: nat)
    requires n <= |t|
  {
    forall i :: 0 <= i < n && t[i] == '"' ==> Escaped(t, i)
  }

  lemma QuotesAfter(t: string, k: nat, n: nat)
    requires k + n <= |t| && 0 < |t| && t[0] != '"' && (if k == 1 then t[0] != '\\' else k == 2 && t[0] == '\\')
    ensures NoQuoteBefore(t, k + n) <==> NoQuoteBefore(t[k..], n)
    ensures Escaped(t, k + n) == Escaped(t[k..], n)
  {
    assert k == 2 ==> Escaped(t, 1) by { assert Slashes(t, 0) == 0; }
    hide Slashes, Escaped;
    var rest := t[k..];
    EscapedAfter(t, k, k + n);
    if NoQuoteBefore(rest, n) {
      forall i | k <= i < k + n && t[i] == '"'
        ensures Escaped(t, i)
      {
        EscapedAfter(t, k, i);
        assert rest[i - k] == '"';
      }
    }
    if NoQuoteBefore(t, k + n) {
      forall j | 0 <= j < n && rest[j] == '"'
        ensures Escaped(rest, j)
      {
        EscapedAfter(t, k, j + k);
        assert t[j + k] == '"';
      }
    }
  }

  /** The scanner stops at a quote that is not escaped, the first one, or at the end of a text without any. */
  lemma {:induction false} QuoteEnds(t: string)
    ensures match QuotedLength(t)
            case Some(n) => NoQuoteBefore(t, n) && !Escaped(t, n)
            case None => NoQuoteBefore(t, |t|) && Escaped(t, |t|)
    decreases |t|
  {
    if t != [] && t[0] != '"' && (t[0] != '\\' || |t| > 1) {
      hide Escaped, NoQuoteBefore;
      var k := if t[0] != '\\' then 1 else 2;
      QuoteEnds(t[k..]);
      var n := QuotedLength(t[k..]);
      QuotesAfter(t, k, if n.Some? then n.value else |t| - k);
    } else if t != [] {
      assert Slashes(t, 0) == 0 && Slashes(t, 1) == if t[0] == '\\' then 1 else 0;
    }
  }

  /** It steps past the terminator exactly when every quote is escaped and so is the terminator. */
  lemma OverrunExactly(t: string)
    ensures QuotedLength(t).None? <==> NoQuoteBefore(t, |t|) && Escaped(t, |t|)
  {
    hide QuotedLength, Escaped;
    QuoteEnds(t);
  }

  lemma {:induction false} QuotedOverrunEnds(t: string)
    requires QuotedLength(t).None?
    ensures t != [] && t[|t| - 1] == '\\'
  {
    if t[0] != '\\' {
      QuotedOverrunEnds(t[1..]);
    } else if |t| > 1 {
      QuotedOverrunEnds(t[2..]);
    }
  }

  /** Only a text that ends in a backslash can make the scanner step past its terminator. */
  lemma {:induction false} OverrunEndsInBackslash(t: string)
    requires ParseEntries(t).Overrun?
    ensures t != [] && t[|t| - 1] == '\\'
    decreases |t|
  {
    var n := KeyLength(t);
    if ParseEntry(t).EntryOverrun? {
      QuotedOverrunEnds(t[n..][1..][1..]);
    } else {
      OverrunEndsInBackslash(SkipSpaces(t[ParseEntry(t).length..]));
    }
  }

  // ---------- Printing ----------

  predicate ValidKey(key: string) {
    key != [] && NUL !in key && ' ' !in key && '=' !in key
  }

  predicate ValidEntry(e: Entry) {
    ValidKey(e.key) && (e.value.Some? ==> e.value.value != [] && NUL !in e.value.value)
  }

  /** How an entry may be written: `k`, `k=`, `k=""`, `k=v`, or `k="v"` with any characters escaped. */
  datatype Spelling = Bare | Dangling | EmptyQuotes | Plain | Quoted(escapes: seq<bool>)

  predicate Spells(sp: Spelling, e: Entry) {
    match sp
    case Bare | Dangling | EmptyQuotes => e.value.None?
    case Plain => e.value.Some? && ' ' !in e.value.value && !StartsWith(e.value.value, '"')
    case Quoted(escapes) => e.value.Some? && |escapes| == |e.value.value|
  }

  /** `v` with a backslash before every quote and backslash, and before the characters that `escapes` selects. */
  function Escape(v: string, escapes: seq<bool>): string
    requires |escapes| == |v|
  {
    if v == [] then []
    else (if escapes[0] || v[0] == '"' || v[0] == '\\' then ['\\', v[0]] else [v[0]]) + Escape(v[1..], escapes[1..])
  }

  function SpellValue(e: Entry, sp: Spelling): string
    requires Spells(sp, e)
  {
    match sp
    case Bare => ""
    case Dangling => "="
    case EmptyQuotes => ['=', '"'] + ("" + ['"'])
    case Plain => "=" + e.value.value
    case Quoted(escapes) => ['=', '"'] + (Escape(e.value.value, escapes) + ['"'])
  }

  function Spell(e: Entry, sp: Spelling): string
    requires Spells(sp, e)
  {
    e.key + SpellValue(e, sp)
  }

  function Spaces(n: nat): string {
    seq(n, _ => ' ')
  }

  /** An entry, its spelling and the number of spaces after it. */
  datatype Item = Item(entry: Entry, spelling: Spelling, gap: nat)

  /** An entry that ends in a closing quote needs no space before the next one. */
  predicate NeedsGap(sp: Spelling) {
    !sp.EmptyQuotes? && !sp.Quoted?
  }

  ghost predicate Printable(items: seq<Item>) {
    && (forall i :: 0 <= i < |items| ==> ValidEntry(items[i].entry) && Spells(items[i].spelling, items[i].entry))
    && forall i :: 0 <= i < |items| - 1 ==> items[i].gap > 0 || !NeedsGap(items[i].spelling)
  }

  function Render(items: seq<Item>): string
    requires Printable(items)
  {
    if items == [] then []
    else Spell(items[0].entry, items[0].spelling) + (Spaces(items[0].gap) + Render(items[1..]))
  }

  function Entries(items: seq<Item>): seq<Entry> {
    seq(|items|, i requires 0 <= i < |items| => items[i].entry)
  }

  // ---------- Parsing what was printed ----------

  lemma {:induction false} SkipsSpaces(n: nat, t: string)
    requires !StartsWith(t, ' ')
    ensures SkipSpaces(Spaces(n) + t) == t
    decreases n
  {
    if n == 0 {
      assert Spaces(0) + t == t;
    } else {
      SkipsSpaces(n - 1, t);
      assert (Spaces(n) + t)[1..] == Spaces(n - 1) + t;
    }
  }

  lemma {:induction false} KeyEnds(key: string, t: string)
    requires ' ' !in key && '=' !in key
    requires t == [] || t[0] == ' ' || t[0] == '='
    ensures KeyLength(key + t) == |key|
  {
    if key == [] {
      assert key + t == t;
    } else {
      KeyEnds(key[1..], t);
      assert (key + t)[1..] == key[1..] + t;
    }
  }

  lemma {:induction false} PlainEnds(v: string, t: string)
    requires ' ' !in v
    requires t == [] || t[0] == ' '
    ensures PlainLength(v + t) == |v|
  {
    if v == [] {
      assert v + t == t;
    } else {
      PlainEnds(v[1..], t);
      assert (v + t)[1..] == v[1..] + t;
    }
  }

  lemma EscapeFirst(v: string, escapes: seq<bool>)
    requires |escapes| == |v| > 0
    ensures var body, rest := Escape(v, escapes), Escape(v[1..], escapes[1..]);
            if escapes[0] || v[0] == '"' || v[0] == '\\' then body == ['\\', v[0]] + rest else body == [v[0]] + rest
  {
  }

  lemma Reassociate(a: string, b: string, c: string)
    ensures a + b + c == a + (b + c)
  {
  }

  lemma QuotedSteps(c: char, t: string)
    ensures c != '"' && c != '\\' ==> QuotedLength([c] + t) == Longer(1, QuotedLength(t))
    ensures QuotedLength(['\\', c] + t) == Longer(2, QuotedLength(t))
  {
    assert ([c] + t)[1..] == t && (['\\', c] + t)[2..] == t;
  }

  lemma {:induction false} QuotedEnds(v: string, escapes: seq<bool>, t: string)
    requires |escapes| == |v| && StartsWith(t, '"')
    ensures QuotedLength(Escape(v, escapes) + t) == Some(|Escape(v, escapes)|)
  {
    if v == [] {
      EscapeNothing();
      assert "" + t == t;
    } else {
      hide Escape, QuotedLength;
      var rest := Escape(v[1..], escapes[1..]);
      EscapeFirst(v, escapes);
      QuotedEnds(v[1..], escapes[1..], t);
      QuotedSteps(v[0], rest + t);
      Reassociate(['\\', v[0]], rest, t);
      Reassociate([v[0]], rest, t);
    }
  }

  lemma {:induction false} EscapeUnescapes(v: string, escapes: seq<bool>)
    requires |escapes| == |v|
    ensures Unescape(Escape(v, escapes)) == Some(v)
  {
    if v == [] {
      EscapeNothing();
    } else {
      hide Escape;
      var body, rest := Escape(v, escapes), Escape(v[1..], escapes[1..]);
      EscapeFirst(v, escapes);
      EscapeUnescapes(v[1..], escapes[1..]);
      assert v == [v[0]] + v[1..];
      if escapes[0] || v[0] == '"' || v[0] == '\\' {
        assert body[2..] == rest;
      } else {
        assert body[1..] == rest;
      }
    }
  }

  lemma QuotedRoundTrip(v: string, escapes: seq<bool>, t: string)
    requires |escapes| == |v|
    ensures var text := ['=', '"'] + (Escape(v, escapes) + ['"']);
            ParseValue(text + t) == ReadValue(NonEmpty(v), |text|)
  {
    var body := Escape(v, escapes);
    var w := (['=', '"'] + (body + ['"']) + t)[1..];
    assert w[0] == '"' && w[1..] == body + (['"'] + t) && w[1..1 + |body|] == body;
    QuotedEnds(v, escapes, ['"'] + t);
    EscapeUnescapes(v, escapes);
  }

  lemma PlainRoundTrip(v: string, t: string)
    requires ' ' !in v && !StartsWith(v, '"')
    requires t == [] || t[0] == ' '
    ensures ParseValue(("=" + v) + t) == ReadValue(NonEmpty(v), |"=" + v|)
  {
    hide PlainLength;
    var text := ("=" + v) + t;
    assert text[1..] == v + t && (v + t)[..|v|] == v;
    PlainEnds(v, t);
  }

  lemma BareRoundTrip(t: string)
    requires t == [] || t[0] == ' '
    ensures ParseValue("" + t) == ReadValue(None, 0)
  {
    assert "" + t == t;
  }

  lemma ValueRoundTrip(e: Entry, sp: Spelling, t: string)
    requires ValidEntry(e) && Spells(sp, e)
    requires NeedsGap(sp) ==> t == [] || t[0] == ' '
    ensures ParseValue(SpellValue(e, sp) + t) == ReadValue(e.value, |SpellValue(e, sp)|)
  {
    hide ParseValue, Escape;
    match sp
    case Bare =>
      BareRoundTrip(t);
    case Dangling =>
      assert "=" + [] == "=";
      PlainRoundTrip([], t);
    case Plain =>
      PlainRoundTrip(e.value.value, t);
    case EmptyQuotes =>
      EscapeNothing();
      QuotedRoundTrip([], [], t);
    case Quoted(escapes) =>
      QuotedRoundTrip(e.value.value, escapes, t);
  }

  lemma EscapeNothing()
    ensures Escape([], []) == ""
  {
  }

  /** A spelled value ends the key before it. */
  lemma ValueEndsKey(e: Entry, sp: Spelling, t: string)
    requires Spells(sp, e) && (NeedsGap(sp) ==> t == [] || t[0] == ' ')
    ensures var after := SpellValue(e, sp) + t; after == [] || after[0] == ' ' || after[0] == '='
  {
    hide Escape;
  }

  /** One printed entry, followed by text it does not run into, parses back to itself. */
  lemma EntryRoundTrip(e: Entry, sp: Spelling, t: string)
    requires ValidEntry(e) && Spells(sp, e)
    requires NeedsGap(sp) ==> t == [] || t[0] == ' '
    ensures ParseEntry(Spell(e, sp) + t) == Read(e, |Spell(e, sp)|)
  {
    hide ParseValue, SpellValue, Spells, KeyLength;
    var after := SpellValue(e, sp) + t;
    assert Spell(e, sp) + t == e.key + after;
    assert (e.key + after)[|e.key|..] == after && (e.key + after)[..|e.key|] == e.key;
    ValueEndsKey(e, sp, t);
    KeyEnds(e.key, after);
    ValueRoundTrip(e, sp, t);
  }

  lemma ParseFirst(t: string, e: Entry, n: nat)
    requires t != [] && ParseEntry(t) == Read(e, n)
    ensures ParseEntries(t) == Prepend([e], ParseEntries(SkipSpaces(t[n..])))
  {
    hide ParseEntry;
  }

  /** Whatever the spelling and the spacing, parsing a printed list of entries returns that list. */
  lemma {:induction false} EntriesRoundTrip(items: seq<Item>)
    requires Printable(items)
    ensures !StartsWith(Render(items), ' ')
    ensures ParseEntries(Render(items)) == Parsed(Entries(items))
    decreases |items|
  {
    hide ParseEntry, ParseEntries, Spell, Spells, ValidEntry, Spaces, SkipSpaces;
    ParseNothing();
    if items != [] {
      var item, rest := items[0], items[1..];
      var text, tail := Spell(item.entry, item.spelling), Spaces(item.gap) + Render(rest);
      EntriesRoundTrip(rest);
      if NeedsGap(item.spelling) {
        TailStarts(items);
      }
      StartsWithKey(item.entry, item.spelling);
      EntryRoundTrip(item.entry, item.spelling, tail);
      assert Render(items) == text + tail && (text + tail)[|text|..] == tail;
      ParseFirst(text + tail, item.entry, |text|);
      SkipsSpaces(item.gap, Render(rest));
      assert Entries(items) == [item.entry] + Entries(rest);
    }
  }

  lemma ParseNothing()
    ensures ParseEntries("") == Parsed([])
  {
  }

  lemma StartsWithKey(e: Entry, sp: Spelling)
    requires ValidEntry(e) && Spells(sp, e)
    ensures Spell(e, sp) != [] && Spell(e, sp)[0] == e.key[0] != ' '
  {
    assert e.key[0] in e.key;
  }

  lemma TailStarts(items: seq<Item>)
    requires Printable(items) && items != [] && NeedsGap(items[0].spelling)
    ensures var tail := Spaces(items[0].gap) + Render(items[1..]); tail == [] || tail[0] == ' '
  {
    if items[0].gap == 0 {
      assert items[1..] == [];
    }
  }

  lemma {:induction false} EscapeIsText(v: string, escapes: seq<bool>)
    requires |escapes| == |v| && NUL !in v
    ensures NUL !in Escape(v, escapes)
  {
    if v != [] {
      EscapeIsText(v[1..], escapes[1..]);
    }
  }

  lemma {:induction false} RenderIsText(items: seq<Item>)
    requires Printable(items)
    ensures NUL !in Render(items)
    decreases |items|
  {
    if items != [] {
      var e, sp := items[0].entry, items[0].spelling;
      if sp.Quoted? {
        EscapeIsText(e.value.value, sp.escapes);
      }
      assert NUL !in Spell(e, sp);
      RenderIsText(items[1..]);
    }
  }

  /** Any printable list of entries, after any leading spaces, is a text that parses to exactly that list. */
  lemma RoundTrip(lead: nat, items: seq<Item>)
    requires Printable(items)
    ensures NUL !in Spaces(lead) + Render(items)
    ensures Parse(Spaces(lead) + Render(items)) == Parsed(Entries(items))
  {
    EntriesRoundTrip(items);
    RenderIsText(items);
    SkipsSpaces(lead, Render(items));
  }

  // ---------- Printing what was parsed ----------

  lemma {:induction false} KeyIsClean(t: string)
    ensures ' ' !in t[..KeyLength(t)] && '=' !in t[..KeyLength(t)]
  {
    if t != [] && t[0] != ' ' && t[0] != '=' {
      KeyIsClean(t[1..]);
      assert t[..KeyLength(t)] == [t[0]] + t[1..][..KeyLength(t[1..])];
    }
  }

  lemma {:induction false} UnescapeKeeps(t: string)
    requires NUL !in t && Unescape(t).Some?
    ensures NUL !in Unescape(t).value
    decreases |t|
  {
    if t != [] {
      UnescapeKeeps(if t[0] != '\\' then t[1..] else t[2..]);
    }
  }

  /** Every parsed entry is printable. */
  lemma {:induction false} ParsedIsValid(t: string)
    requires NUL !in t && ParseEntries(t).Parsed?
    ensures forall i :: 0 <= i < |ParseEntries(t).entries| ==> ValidEntry(ParseEntries(t).entries[i])
    decreases |t|
  {
    hide ParseValue;
    if t != [] {
      var r := ParseEntry(t);
      KeyIsClean(t);
      ValueIsClean(t[KeyLength(t)..]);
      assert ValidEntry(r.entry);
      ParsedIsValid(SkipSpaces(t[r.length..]));
    }
  }

  lemma ValueIsClean(t: string)
    requires NUL !in t && ParseValue(t).ReadValue?
    ensures var v := ParseValue(t).value; v.Some? ==> v.value != [] && NUL !in v.value
  {
    if StartsWith(t, '=') && StartsWith(t[1..], '"') {
      var body := t[1..][1..1 + QuotedLength(t[1..][1..]).value];
      assert forall c :: c in body ==> c in t;
      UnescapeKeeps(body);
    }
  }

  /** The canonical form: every value quoted, only quotes and backslashes escaped, one space after each entry. */
  function Canonical(entries: seq<Entry>): (items: seq<Item>)
    ensures |items| == |entries| && Entries(items) == entries
    ensures forall i :: 0 <= i < |items| ==> Spells(items[i].spelling, items[i].entry) && items[i].gap == 1
  {
    seq(|entries|, i requires 0 <= i < |entries| =>
      Item(entries[i],
           if entries[i].value.None? then Bare else Quoted(seq(|entries[i].value.value|, _ => false)),
           1))
  }

  /** Printing the entries of an accepted text in canonical form gives a text with the same entries. */
  lemma PrintingIsCanonical(text: Text)
    requires Parse(text).Parsed?
    ensures var items := Canonical(Parse(text).entries);
            Printable(items) && Parse(Render(items)) == Parse(text)
  {
    ParsedIsValid(SkipSpaces(text));
    var items := Canonical(Parse(text).entries);
    assert forall i :: 0 <= i < |items| ==> items[i].entry == Entries(items)[i];
    RoundTrip(0, items);
    assert Spaces(0) + Render(items) == Render(items);
  }

  // ---------- The accepted language ----------

  /** Every quoted text that the scanner accepts is an escaped value. */
  lemma {:induction false} BodyIsEscaped(t: string) returns (escapes: seq<bool>)
    requires QuotedLength(t).Some?
    ensures var body := t[..QuotedLength(t).value];
            Unescape(body).Some? && |escapes| == |Unescape(body).value| && Escape(Unescape(body).value, escapes) == body
    decreases |t|
  {
    escapes := [];
    if t != [] && t[0] != '"' {
      var k, body := if t[0] != '\\' then 1 else 2, t[..QuotedLength(t).value];
      var later := BodyIsEscaped(t[k..]);
      assert body[k..] == t[k..][..QuotedLength(t[k..]).value];
      escapes := [k == 2] + later;
      var v := Unescape(body).value;
      assert v == [body[k - 1]] + Unescape(body[k..]).value && v[1..] == Unescape(body[k..]).value;
      assert escapes[1..] == later;
      assert body == body[..k] + body[k..];
    }
  }

  lemma {:induction false} PlainIsClean(t: string)
    ensures ' ' !in t[..PlainLength(t)]
    ensures PlainLength(t) == |t| || t[PlainLength(t)] == ' '
  {
    if t != [] && t[0] != ' ' {
      PlainIsClean(t[1..]);
      assert t[..PlainLength(t)] == [t[0]] + t[1..][..PlainLength(t[1..])];
    }
  }

  lemma QuotedIsSpelled(e: Entry, v: string) returns (sp: Spelling)
    requires ParseValue("=" + v).ReadValue? && StartsWith(v, '"') && e.value == ParseValue("=" + v).value
    ensures Spells(sp, e) && !NeedsGap(sp) && ("=" + v)[..ParseValue("=" + v).length] == SpellValue(e, sp)
  {
    hide Escape, Unescape;
    assert ("=" + v)[1..] == v;
    var m := QuotedLength(v[1..]).value;
    var body := v[1..][..m];
    assert v[1..1 + m] == body;
    var escapes := BodyIsEscaped(v[1..]);
    ScannedUnescapes(v[1..]);
    assert ("=" + v)[..m + 3] == ['=', '"'] + (body + ['"']);
    if body == [] {
      EscapeNothing();
      UnescapeNothing();
      sp := EmptyQuotes;
    } else {
      sp := Quoted(escapes);
    }
  }

  lemma UnescapeNothing()
    ensures Unescape("") == Some("")
  {
  }

  /** Every value that the parser reads has a spelling, and one that needs a space after it is followed by one. */
  lemma ValueIsSpelled(e: Entry, t: string) returns (sp: Spelling)
    requires ParseValue(t).ReadValue? && e.value == ParseValue(t).value
    requires t == [] || t[0] == ' ' || t[0] == '='
    ensures Spells(sp, e) && t[..ParseValue(t).length] == SpellValue(e, sp)
    ensures NeedsGap(sp) ==> ParseValue(t).length == |t| || t[ParseValue(t).length] == ' '
  {
    hide PlainLength, QuotedLength, Unescape, Escape;
    if !StartsWith(t, '=') {
      return Bare;
    }
    var v := t[1..];
    assert t == "=" + v;
    if StartsWith(v, '"') {
      sp := QuotedIsSpelled(e, v);
    } else {
      var n := PlainLength(v);
      PlainIsClean(v);
      assert t[..1 + n] == "=" + v[..n];
      sp := if v[..n] == [] then Dangling else Plain;
      assert StartsWith(v[..n], '"') ==> StartsWith(v, '"');
    }
  }

  lemma {:induction false} SpacesSkipped(t: string)
    ensures t == Spaces(SpaceLength(t)) + SkipSpaces(t) && !StartsWith(SkipSpaces(t), ' ')
  {
    if StartsWith(t, ' ') {
      SpacesSkipped(t[1..]);
      assert Spaces(SpaceLength(t)) == [' '] + Spaces(SpaceLength(t[1..]));
      assert t == [' '] + t[1..];
      assert SkipSpaces(t) == SkipSpaces(t[1..]);
    } else {
      assert Spaces(0) + t == t;
    }
  }

  /** One parsed entry and its text. */
  lemma EntryIsSpelled(t: string) returns (sp: Spelling)
    requires ParseEntry(t).Read? && NUL !in t
    ensures var r := ParseEntry(t);
            ValidEntry(r.entry) && Spells(sp, r.entry) && t[..r.length] == Spell(r.entry, sp)
    ensures NeedsGap(sp) ==> ParseEntry(t).length == |t| || t[ParseEntry(t).length] == ' '
  {
    hide ParseValue, SpellValue, Spells;
    var r, n := ParseEntry(t), KeyLength(t);
    KeyIsClean(t);
    KeyStops(t);
    ValueIsClean(t[n..]);
    sp := ValueIsSpelled(r.entry, t[n..]);
    assert t[..r.length] == t[..n] + t[n..][..r.length - n];
  }

  lemma {:induction false} KeyStops(t: string)
    ensures KeyLength(t) == |t| || t[KeyLength(t)] == ' ' || t[KeyLength(t)] == '='
  {
    if t != [] && t[0] != ' ' && t[0] != '=' {
      KeyStops(t[1..]);
    }
  }

  /** One parsed entry with the spaces after it, and the text that is left. */
  lemma EntryIsItem(t: string) returns (item: Item)
    requires ParseEntry(t).Read? && NUL !in t
    ensures var next := SkipSpaces(t[ParseEntry(t).length..]);
            && item.entry == ParseEntry(t).entry && ValidEntry(item.entry) && Spells(item.spelling, item.entry)
            && t == Spell(item.entry, item.spelling) + (Spaces(item.gap) + next)
            && (NeedsGap(item.spelling) && item.gap == 0 ==> next == [])
            && NUL !in next && !StartsWith(next, ' ')
  {
    hide ParseEntry, Spell, Spells, ValidEntry, Spaces;
    var sp := EntryIsSpelled(t);
    var n := ParseEntry(t).length;
    var after := t[n..];
    SpacesSkipped(after);
    item := Item(ParseEntry(t).entry, sp, SpaceLength(after));
    assert t == t[..n] + after;
  }

  /** Every accepted text is printed from its entries. */
  lemma {:induction false} AcceptedIsRendered(t: string) returns (items: seq<Item>)
    requires ParseEntries(t).Parsed? && NUL !in t && !StartsWith(t, ' ')
    ensures Printable(items) && Render(items) == t && (t == [] ==> items == [])
    decreases |t|
  {
    hide ParseEntry, Spell, Spells, ValidEntry, Spaces, Render, Printable, SkipSpaces;
    items := [];
    RenderNothing();
    if t != [] {
      var item := EntryIsItem(t);
      ShorterAfter(t, ParseEntry(t).length);
      var rest := AcceptedIsRendered(SkipSpaces(t[ParseEntry(t).length..]));
      items := FirstItem(item, rest);
    }
  }

  lemma ShorterAfter(t: string, n: nat)
    requires 0 < n <= |t|
    ensures |SkipSpaces(t[n..])| < |t|
  {
  }

  lemma RenderNothing()
    ensures Printable([]) && Render([]) == ""
  {
  }

  lemma FirstItem(item: Item, rest: seq<Item>) returns (items: seq<Item>)
    requires Printable(rest) && ValidEntry(item.entry) && Spells(item.spelling, item.entry)
    requires NeedsGap(item.spelling) && item.gap == 0 ==> rest == []
    ensures items == [item] + rest && Printable(items)
    ensures Render(items) == Spell(item.entry, item.spelling) + (Spaces(item.gap) + Render(rest))
  {
    hide ValidEntry, Spells, Spell;
    items := [item] + rest;
    assert items[0] == item && items[1..] == rest;
    forall i | 0 <= i < |items| - 1
      ensures items[i].gap > 0 || !NeedsGap(items[i].spelling)
    {
      assert i > 0 ==> items[i] == rest[i - 1];
    }
  }

  /** The parser accepts exactly the printed texts. */
  lemma AcceptsExactlyRendered(text: Text)
    ensures Parse(text).Parsed? <==>
              exists lead: nat, items: seq<Item> :: Printable(items) && text == Spaces(lead) + Render(items)
  {
    hide Printable, Render, Spaces;
    if Parse(text).Parsed? {
      SpacesSkipped(text);
      var items := AcceptedIsRendered(SkipSpaces(text));
      assert text == Spaces(SpaceLength(text)) + Render(items);
    }
    forall lead: nat, items: seq<Item> | Printable(items) && text == Spaces(lead) + Render(items)
      ensures Parse(text).Parsed?
    {
      RoundTrip(lead, items);
    }
  }

  // ---------- The commands that are scanned past their end ----------

  /** The last item, too, is followed by a space if it needs one. */
  ghost predicate Closed(items: seq<Item>) {
    items == [] || items[|items| - 1].gap > 0 || !NeedsGap(items[|items| - 1].spelling)
  }

  /** A key with an open quote, in whose text the scanner finds neither the end of the quote nor that of the text. */
  ghost predicate OpenQuote(t: string, key: string, tail: string) {
    ValidKey(key) && t == key + (['=', '"'] + tail) && NoQuoteBefore(tail, |tail|) && Escaped(tail, |tail|)
  }

  /** A key with an open quote, whose text ends before the quote does. */
  ghost predicate UnclosedQuote(t: string, key: string, tail: string) {
    ValidKey(key) && t == key + (['=', '"'] + tail) && NoQuoteBefore(tail, |tail|) && !Escaped(tail, |tail|)
  }

  /** What the parser makes of a key with an open quote. */
  lemma QuoteIsNoEntry(t: string, key: string, tail: string)
    ensures OpenQuote(t, key, tail) ==> ParseEntry(t) == EntryOverrun && t != [] && t[0] != ' '
    ensures UnclosedQuote(t, key, tail) ==>
              ParseEntry(t) == BadEntry(UNTERMINATED_QUOTED_KEY) && t != [] && t[0] != ' '
  {
    hide QuotedLength, KeyLength, NoQuoteBefore, Escaped;
    if OpenQuote(t, key, tail) || UnclosedQuote(t, key, tail) {
      assert t[0] == key[0] && key[0] in key;
      OverrunExactly(tail);
      UnclosedExactly(tail);
      var v := ['=', '"'] + tail;
      KeyEnds(key, v);
      assert t[|key|..] == v && v[1..][1..] == tail && v[1..][0] == '"';
    }
  }

  /** The scanner ends at the end of the text exactly when every quote is escaped and the end is not. */
  lemma UnclosedExactly(t: string)
    ensures QuotedLength(t) == Some(|t|) <==> NoQuoteBefore(t, |t|) && !Escaped(t, |t|)
  {
    hide QuotedLength, Slashes;
    QuoteEnds(t);
  }

  /** Whatever follows closed printed entries is parsed after them. */
  lemma {:induction false} EntriesThen(items: seq<Item>, more: string)
    requires Printable(items) && Closed(items) && more != [] && more[0] != ' '
    ensures ParseEntries(Render(items) + more) == Prepend(Entries(items), ParseEntries(more))
    decreases |items|
  {
    hide ParseEntry, ParseEntries, Spell, Spells, ValidEntry, Spaces, SkipSpaces;
    if items == [] {
      assert Render(items) + more == more && Entries(items) == [];
      PrependNothing(ParseEntries(more));
    } else {
      var item, rest := items[0], items[1..];
      ClosedRest(items);
      EntriesThen(rest, more);
      var next := Render(rest) + more;
      RenderStarts(rest, more);
      SkipsSpaces(item.gap, next);
      SpacesThen(item.gap, next);
      var text, tail := Spell(item.entry, item.spelling), Spaces(item.gap) + next;
      EntryRoundTrip(item.entry, item.spelling, tail);
      StartsWithKey(item.entry, item.spelling);
      assert Render(items) + more == text + tail && (text + tail)[|text|..] == tail;
      ParseFirst(text + tail, item.entry, |text|);
      assert Entries(items) == [item.entry] + Entries(rest);
      PrependTwice([item.entry], Entries(rest), ParseEntries(more));
    }
  }

  lemma PrependNothing(rest: Outcome)
    ensures Prepend([], rest) == rest
  {
    assert rest.Parsed? ==> [] + rest.entries == rest.entries;
  }

  lemma PrependTwice(s: seq<Entry>, t: seq<Entry>, rest: Outcome)
    ensures Prepend(s, Prepend(t, rest)) == Prepend(s + t, rest)
  {
    assert rest.Parsed? ==> s + (t + rest.entries) == s + t + rest.entries;
  }

  lemma ClosedRest(items: seq<Item>)
    requires Printable(items) && Closed(items) && items != []
    ensures Printable(items[1..]) && Closed(items[1..])
    ensures items[0].gap > 0 || !NeedsGap(items[0].spelling)
  {
  }

  lemma RenderStarts(items: seq<Item>, more: string)
    requires Printable(items) && more != [] && more[0] != ' '
    ensures !StartsWith(Render(items) + more, ' ')
  {
    hide Spell;
    if items != [] {
      StartsWithKey(items[0].entry, items[0].spelling);
    }
  }

  lemma SpacesThen(n: nat, t: string)
    ensures n > 0 ==> (Spaces(n) + t)[0] == ' '
  {
  }

  /** A text that is not accepted is closed printed entries and then something that is no entry. */
  lemma {:induction false} StuckIsRendered(t: string) returns (items: seq<Item>, more: string)
    requires !ParseEntries(t).Parsed? && NUL !in t && !StartsWith(t, ' ')
    ensures Printable(items) && Closed(items) && t == Render(items) + more
    ensures more != [] && more[0] != ' ' && NUL !in more && !ParseEntry(more).Read?
    decreases |t|
  {
    hide ParseEntry, Spell, Spells, ValidEntry, Spaces, Render, Printable, SkipSpaces;
    RenderNothing();
    if !ParseEntry(t).Read? {
      items, more := [], t;
      assert t == "" + t;
    } else {
      var item := EntryIsItem(t);
      ShorterAfter(t, ParseEntry(t).length);
      var rest;
      rest, more := StuckIsRendered(SkipSpaces(t[ParseEntry(t).length..]));
      items := FirstItem(item, rest);
      FirstCloses(item, rest);
      assert items == [item] + rest;
      var text := Spell(item.entry, item.spelling);
      assert text + (Spaces(item.gap) + (Render(rest) + more)) == text + (Spaces(item.gap) + Render(rest)) + more;
    }
  }

  /** And the parser stops there. */
  lemma StuckStops(lead: nat, items: seq<Item>, more: string)
    requires Printable(items) && Closed(items)
    requires more != [] && more[0] != ' ' && !ParseEntry(more).Read?
    ensures Parse(Spaces(lead) + (Render(items) + more))
            == match ParseEntry(more)
               case EntryOverrun => Overrun
               case BadEntry(code) => Rejected(code)
  {
    hide ParseEntry, Printable, Closed, Render, Spaces, SkipSpaces;
    EntriesThen(items, more);
    RenderStarts(items, more);
    SkipsSpaces(lead, Render(items) + more);
  }

  lemma FirstCloses(item: Item, rest: seq<Item>)
    requires Closed(rest) && (item.gap > 0 || !NeedsGap(item.spelling))
    ensures Closed([item] + rest)
  {
  }

  /** What is no entry has no key, or is a key with an open quote. */
  lemma NoEntryIsQuote(t: string) returns (key: string, tail: string)
    requires !ParseEntry(t).Read? && NUL !in t && t != [] && t[0] != ' '
    ensures match ParseEntry(t)
            case EntryOverrun => OpenQuote(t, key, tail)
            case BadEntry(code) =>
              || (code == INVALID_KEY && t[0] == '=')
              || (code == UNTERMINATED_QUOTED_KEY && UnclosedQuote(t, key, tail))
  {
    hide QuotedLength, NoQuoteBefore, Escaped, Unescape;
    var n := KeyLength(t);
    key, tail := "", "";
    if n > 0 {
      var v := t[n..];
      KeyIsClean(t);
      ValueIsUnescapable(v);
      key, tail := t[..n], v[1..][1..];
      OverrunExactly(tail);
      UnclosedExactly(tail);
      assert v == ['=', '"'] + tail;
      assert t == key + v;
    }
  }

  /** The scanner steps past the end of a command exactly when a key with such a quote follows printed entries. */
  lemma CommandOverrunExactly(text: Text)
    ensures Parse(text).Overrun? <==>
              exists lead: nat, items: seq<Item>, more: string, key: string, tail: string ::
                && Printable(items) && Closed(items)
                && text == Spaces(lead) + (Render(items) + more) && OpenQuote(more, key, tail)
  {
    hide Parse, ParseEntry, Printable, Closed, Render, Spaces, OpenQuote;
    if Parse(text).Overrun? {
      var lead, items, more, key, tail := WhereItFails(text);
    }
    forall lead: nat, items: seq<Item>, more: string, key: string, tail: string
      | Printable(items) && Closed(items) && text == Spaces(lead) + (Render(items) + more) && OpenQuote(more, key, tail)
      ensures Parse(text).Overrun?
    {
      QuoteIsNoEntry(more, key, tail);
      StuckStops(lead, items, more);
    }
  }

  /** The entries before the place where a text that is not accepted fails, and what stands there. */
  lemma WhereItFails(text: Text)
    returns (lead: nat, items: seq<Item>, more: string, key: string, tail: string)
    requires !Parse(text).Parsed?
    ensures Printable(items) && Closed(items) && text == Spaces(lead) + (Render(items) + more)
    ensures match Parse(text)
            case Overrun => OpenQuote(more, key, tail)
            case Rejected(code) =>
              || (code == INVALID_KEY && StartsWith(more, '='))
              || (code == UNTERMINATED_QUOTED_KEY && UnclosedQuote(more, key, tail))
  {
    hide ParseEntry, ParseEntries, Printable, Closed, Render, Spaces, SkipSpaces, OpenQuote, UnclosedQuote;
    SpacesSkipped(text);
    lead := SpaceLength(text);
    items, more := StuckIsRendered(SkipSpaces(text));
    StuckStops(lead, items, more);
    key, tail := NoEntryIsQuote(more);
  }

  /**
    A command is rejected with -10 exactly when something that starts with an equals sign follows printed entries, with
    -11 exactly when a key with a quote that is not closed does, and with no other code.
  */
  lemma RejectedExactly(text: Text)
    ensures Parse(text) == Rejected(-10) <==>
              exists lead: nat, items: seq<Item>, more: string ::
                && Printable(items) && Closed(items)
                && text == Spaces(lead) + (Render(items) + more) && StartsWith(more, '=')
    ensures Parse(text) == Rejected(-11) <==>
              exists lead: nat, items: seq<Item>, more: string, key: string, tail: string ::
                && Printable(items) && Closed(items)
                && text == Spaces(lead) + (Render(items) + more) && UnclosedQuote(more, key, tail)
    ensures Parse(text).Rejected? ==> Parse(text).code == -10 || Parse(text).code == -11
  {
    hide Parse, ParseEntry, Printable, Closed, Render, Spaces, OpenQuote, UnclosedQuote;
    if Parse(text).Rejected? {
      var lead, items, more, key, tail := WhereItFails(text);
    }
    forall lead: nat, items: seq<Item>, more: string
      | Printable(items) && Closed(items) && text == Spaces(lead) + (Render(items) + more) && StartsWith(more, '=')
      ensures Parse(text) == Rejected(-10)
    {
      NoKey(more);
      StuckStops(lead, items, more);
    }
    forall lead: nat, items: seq<Item>, more: string, key: string, tail: string
      | Printable(items) && Closed(items) && text == Spaces(lead) + (Render(items) + more)
        && UnclosedQuote(more, key, tail)
      ensures Parse(text) == Rejected(-11)
    {
      QuoteIsNoEntry(more, key, tail);
      StuckStops(lead, items, more);
    }
  }

  lemma NoKey(t: string)
    requires StartsWith(t, '=')
    ensures ParseEntry(t) == BadEntry(-10)
  {
  }

  /** The first entry with the given key. */
  function FirstMatch(entries: seq<Entry>, key: string): (r: Option<Entry>)
    ensures r.Some? ==> r.value in entries && r.value.key == key
    ensures r.None? ==> forall i :: 0 <= i < |entries| ==> entries[i].key != key
  {
    if entries == [] then None
    else if entries[0].key == key then Some(entries[0])
    else FirstMatch(entries[1..], key)
  }

  /** Of several entries with the key it is the first in the list. */
  lemma {:induction false} MatchIsFirst(entries: seq<Entry>, key: string, i: nat)
    requires i < |entries| && entries[i].key == key && forall j :: 0 <= j < i ==> entries[j].key != key
    ensures FirstMatch(entries, key) == Some(entries[i])
  {
    if i > 0 {
      MatchIsFirst(entries[1..], key, i - 1);
    }
  }
}
