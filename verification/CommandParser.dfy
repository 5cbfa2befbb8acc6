/** The command parameter parser: scanning by advancing a pointer, and a growing pair of arrays of heap strings. */
module CommandParser {
  import opened Words
  import opened Wrappers
  import opened Pools
  import opened CommandGrammar

  const DEFAULT_RESERVE := 4

  // ---------- How many requests a parse makes ----------

  /** The slots of each array when `n` entries have been stored. */
  function Capacity(n: nat): nat {
    if n == 0 then DEFAULT_RESERVE
    else
      var before := Capacity(n - 1);
      if n - 1 == before then 2 * before else before
  }

  /** That is four slots, doubled until the entries fit. */
  lemma {:induction false} CapacityDoubles(n: nat, k: nat)
    requires 4 * Doublings(k) < n <= 4 * Doublings(k + 1) || (k == 0 && n <= 4)
    ensures Capacity(n) == if n <= 4 then 4 else 4 * Doublings(k + 1)
    decreases n
  {
    if n > 4 {
      if n - 1 > 4 * Doublings(k) {
        CapacityDoubles(n - 1, k);
      } else if k == 0 {
        CapacityDoubles(n - 1, 0);
      } else {
        CapacityDoubles(n - 1, k - 1);
      }
    } else if n > 0 {
      CapacityDoubles(n - 1, 0);
    }
  }

  function Doublings(k: nat): (r: nat)
    ensures r > 0
  {
    if k == 0 then 1 else 2 * Doublings(k - 1)
  }

  /** A full list grows both arrays; a key takes one block, and a value another. */
  function EntryRequests(n: nat, e: Entry): nat {
    (if n == Capacity(n) then 2 else 0) + 1 + if e.value.Some? then 1 else 0
  }

  function EntriesRequests(es: seq<Entry>): nat {
    if es == [] then 0
    else EntriesRequests(es[..|es| - 1]) + EntryRequests(|es| - 1, es[|es| - 1])
  }

  /** The requests of a parse that is granted all of them: two arrays, and those of the entries that it reads. */
  function Requests(text: string): (n: nat)
    ensures n >= 2
  {
    2 + EntriesRequests(ReadEntries(SkipSpaces(text)))
  }

  lemma NextRequests(es: seq<Entry>, e: Entry)
    ensures EntriesRequests(es + [e]) == EntriesRequests(es) + EntryRequests(|es|, e)
  {
    assert (es + [e])[..|es|] == es;
  }

  lemma {:induction false} RequestsGrow(es: seq<Entry>, more: seq<Entry>)
    ensures EntriesRequests(es) <= EntriesRequests(es + more)
    decreases |more|
  {
    if more == [] {
      assert es + more == es;
    } else {
      var n := |more| - 1;
      RequestsGrow(es, more[..n]);
      NextRequests(es + more[..n], more[n]);
      assert es + more == es + more[..n] + [more[n]];
    }
  }

  /** The character at `p`, the terminator included. */
  function At(s: Text, p: nat): char
    requires p <= |s|
  {
    if p < |s| then s[p] else NUL
  }

  method FirstNonSpace(s: Text, input: nat) returns (p: nat)
    requires input <= |s|
    ensures p == input + SpaceLength(s[input..])
  {
    p := input;
    while At(s, p) != NUL && At(s, p) == ' '
      invariant p <= |s|
      invariant p + SpaceLength(s[p..]) == input + SpaceLength(s[input..])
      decreases |s| - p
    {
      assert s[p..][1..] == s[p + 1..];
      p := p + 1;
    }
  }

  method KeyEnd(s: Text, input: nat) returns (p: nat)
    requires input <= |s|
    ensures p == input + KeyLength(s[input..])
  {
    p := input;
    while At(s, p) != NUL && At(s, p) != ' ' && At(s, p) != '='
      invariant p <= |s|
      invariant p + KeyLength(s[p..]) == input + KeyLength(s[input..])
      decreases |s| - p
    {
      assert s[p..][1..] == s[p + 1..];
      p := p + 1;
    }
  }

  /** The closing quote, or the terminator, after the quoted text at `input`; and whether it has a backslash. */
  method QuotedEnd(s: Text, input: nat) returns (p: nat, hasEscapes: bool)
    requires input <= |s| && QuotedLength(s[input..]).Some?
    ensures p == input + QuotedLength(s[input..]).value
    ensures hasEscapes <==> exists k :: input <= k < p && s[k] == '\\'
  {
    hasEscapes := false;
    p := input;
    while At(s, p) != NUL && At(s, p) != '"'
      invariant input <= p <= |s|
      invariant QuotedLength(s[p..]).Some?
      invariant p + QuotedLength(s[p..]).value == input + QuotedLength(s[input..]).value
      invariant hasEscapes <==> exists k :: input <= k < p && s[k] == '\\'
      decreases |s| - p
    {
      assert s[p..][1..] == s[p + 1..];
      // A backslash takes the next character with it.
      if At(s, p) == '\\' {
        assert s[p..][2..] == s[p + 2..];
        hasEscapes := true;
        p := p + 1;
      }
      p := p + 1;
    }
  }

  /** The end of the value at `input`: at its closing quote, at a space or at the terminator. */
  method ValueEnd(s: Text, input: nat) returns (p: nat, hasEscapes: bool)
    requires input <= |s|
    requires At(s, input) == '"' ==> QuotedLength(s[input + 1..]).Some?
    ensures At(s, input) == '"' ==>
              && p == input + 1 + QuotedLength(s[input + 1..]).value
              && (hasEscapes <==> exists k :: input + 1 <= k < p && s[k] == '\\')
    ensures At(s, input) != '"' ==> p == input + PlainLength(s[input..]) && !hasEscapes
  {
    if At(s, input) != NUL && At(s, input) == '"' {
      p, hasEscapes := QuotedEnd(s, input + 1);
      return;
    }
    hasEscapes := false;
    p := input;
    while At(s, p) != NUL && At(s, p) != ' '
      invariant p <= |s|
      invariant p + PlainLength(s[p..]) == input + PlainLength(s[input..])
      decreases |s| - p
    {
      assert s[p..][1..] == s[p + 1..];
      p := p + 1;
    }
  }

  // ---------- The blocks of a parameter list ----------

  type Pointer = array?<char>

  ghost function Block(p: Pointer): set<array<char>> {
    if p == null then {} else {p}
  }

  /** The string blocks that the first `n` keys and values point to. */
  ghost function Blocks(ks: seq<Pointer>, vs: seq<Pointer>, n: nat): (r: set<array<char>>)
    requires n <= |ks| && n <= |vs|
    ensures forall i :: 0 <= i < n ==> Block(ks[i]) <= r && Block(vs[i]) <= r
  {
    if n == 0 then {} else Blocks(ks, vs, n - 1) + Block(ks[n - 1]) + Block(vs[n - 1])
  }

  /** No key is missing, and no block is pointed to twice. */
  ghost predicate Distinct(ks: seq<Pointer>, vs: seq<Pointer>, n: nat)
    requires n <= |ks| && n <= |vs|
  {
    forall i :: 0 <= i < n ==> PairIsNew(ks, vs, i)
  }

  /** The `i`-th key exists, and neither it nor the `i`-th value is pointed to before. */
  ghost predicate PairIsNew(ks: seq<Pointer>, vs: seq<Pointer>, i: nat)
    requires i < |ks| && i < |vs|
  {
    ks[i] != null && ks[i] != vs[i] && Block(ks[i]) + Block(vs[i]) !! Blocks(ks, vs, i)
  }

  /** The string `s` stands at the start of `block`, terminated. */
  ghost predicate HoldsString(block: array<char>, s: string)
    reads block
  {
    |s| < block.Length && block[..|s|] == s && block[|s|] == NUL
  }

  /** One slot of each array holds the entry. */
  ghost predicate HoldsEntry(key: Pointer, value: Pointer, e: Entry)
    reads Block(key), Block(value)
  {
    && key != null && HoldsString(key, e.key)
    && (value == null <==> e.value.None?)
    && (value != null ==> HoldsString(value, e.value.value))
  }

  /** The first slots hold the entries, in order, in blocks of their own. */
  ghost predicate HoldsAll(ks: seq<Pointer>, vs: seq<Pointer>, es: seq<Entry>)
    requires |es| <= |ks| && |es| <= |vs|
    reads Blocks(ks, vs, |es|)
  {
    forall i :: 0 <= i < |es| ==> HoldsEntry(ks[i], vs[i], es[i])
  }

  ghost predicate SameSlots(ks: seq<Pointer>, vs: seq<Pointer>, ks': seq<Pointer>, vs': seq<Pointer>, n: nat) {
    && n <= |ks| && n <= |vs| && n <= |ks'| && n <= |vs'|
    && forall i :: 0 <= i < n ==> ks[i] == ks'[i] && vs[i] == vs'[i]
  }

  lemma {:induction false} BlocksSame(ks: seq<Pointer>, vs: seq<Pointer>, ks': seq<Pointer>, vs': seq<Pointer>, n: nat)
    requires SameSlots(ks, vs, ks', vs', n)
    ensures Blocks(ks, vs, n) == Blocks(ks', vs', n)
  {
    if n > 0 {
      BlocksSame(ks, vs, ks', vs', n - 1);
    }
  }

  lemma SlotsMoved(ks: seq<Pointer>, vs: seq<Pointer>, ks': seq<Pointer>, vs': seq<Pointer>, es: seq<Entry>)
    requires SameSlots(ks, vs, ks', vs', |es|)
    requires Distinct(ks, vs, |es|) && HoldsAll(ks, vs, es)
    ensures Blocks(ks, vs, |es|) == Blocks(ks', vs', |es|)
    ensures Distinct(ks', vs', |es|) && HoldsAll(ks', vs', es)
  {
    hide Blocks;
    forall i | 0 <= i <= |es|
      ensures Blocks(ks, vs, i) == Blocks(ks', vs', i)
    {
      BlocksSame(ks, vs, ks', vs', i);
    }
    forall i | 0 <= i < |es|
      ensures PairIsNew(ks', vs', i)
    {
      assert PairIsNew(ks, vs, i);
    }
  }

  lemma {:induction false} BlocksGrow(ks: seq<Pointer>, vs: seq<Pointer>, m: nat, n: nat)
    requires m <= n <= |ks| && n <= |vs|
    ensures Blocks(ks, vs, m) <= Blocks(ks, vs, n)
    decreases n
  {
    if m < n {
      BlocksGrow(ks, vs, m, n - 1);
    }
  }

  /** The `i`-th pair of blocks is among those of the list and not among the earlier ones. */
  lemma PairIsFresh(ks: seq<Pointer>, vs: seq<Pointer>, i: nat, n: nat)
    requires i < n <= |ks| && n <= |vs| && Distinct(ks, vs, n)
    ensures ks[i] != null && ks[i] != vs[i]
    ensures Blocks(ks, vs, i + 1) == Blocks(ks, vs, i) + Block(ks[i]) + Block(vs[i])
    ensures Block(ks[i]) + Block(vs[i]) <= Blocks(ks, vs, n) - Blocks(ks, vs, i)
  {
    assert PairIsNew(ks, vs, i);
    BlocksGrow(ks, vs, i + 1, n);
  }

  lemma NoBlocks(ks: seq<Pointer>, vs: seq<Pointer>)
    ensures Blocks(ks, vs, 0) == {} && Distinct(ks, vs, 0) && HoldsAll(ks, vs, [])
  {
  }

  /** One more pair of slots, pointing to blocks that are not in use, holds one more entry. */
  lemma SlotsPushed(ks: seq<Pointer>, vs: seq<Pointer>, ks': seq<Pointer>, vs': seq<Pointer>, es: seq<Entry>, e: Entry)
    requires SameSlots(ks, vs, ks', vs', |es|) && |es| < |ks'| && |es| < |vs'|
    requires Distinct(ks, vs, |es|) && HoldsAll(ks, vs, es)
    requires HoldsEntry(ks'[|es|], vs'[|es|], e) && ks'[|es|] != vs'[|es|]
    requires Block(ks'[|es|]) + Block(vs'[|es|]) !! Blocks(ks, vs, |es|)
    ensures Blocks(ks', vs', |es| + 1) == Blocks(ks, vs, |es|) + Block(ks'[|es|]) + Block(vs'[|es|])
    ensures Distinct(ks', vs', |es| + 1) && HoldsAll(ks', vs', es + [e])
  {
    hide Blocks, Distinct, HoldsAll;
    SlotsMoved(ks, vs, ks', vs', es);
    DistinctPushed(ks', vs', |es|);
    HoldsPushed(ks', vs', es, e);
  }

  lemma DistinctPushed(ks: seq<Pointer>, vs: seq<Pointer>, n: nat)
    requires n < |ks| && n < |vs| && Distinct(ks, vs, n)
    requires PairIsNew(ks, vs, n)
    ensures Distinct(ks, vs, n + 1)
    ensures Blocks(ks, vs, n + 1) == Blocks(ks, vs, n) + Block(ks[n]) + Block(vs[n])
  {
    BlocksStep(ks, vs, n);
    hide Blocks, PairIsNew;
  }

  lemma HoldsPushed(ks: seq<Pointer>, vs: seq<Pointer>, es: seq<Entry>, e: Entry)
    requires |es| < |ks| && |es| < |vs|
    requires HoldsAll(ks, vs, es) && HoldsEntry(ks[|es|], vs[|es|], e)
    ensures HoldsAll(ks, vs, es + [e])
  {
    hide Blocks, HoldsEntry;
  }

  lemma BlocksStep(ks: seq<Pointer>, vs: seq<Pointer>, n: nat)
    requires n < |ks| && n < |vs|
    ensures Blocks(ks, vs, n + 1) == Blocks(ks, vs, n) + Block(ks[n]) + Block(vs[n])
  {
  }

  lemma SlotsPopped(ks: seq<Pointer>, vs: seq<Pointer>, es: seq<Entry>, e: Entry)
    requires |es| < |ks| && |es| < |vs|
    requires Distinct(ks, vs, |es| + 1) && HoldsAll(ks, vs, es + [e])
    ensures Distinct(ks, vs, |es|) && HoldsAll(ks, vs, es) && HoldsEntry(ks[|es|], vs[|es|], e)
    ensures Block(ks[|es|]) !! Blocks(ks, vs, |es|)
    ensures Blocks(ks, vs, |es| + 1) == Blocks(ks, vs, |es|) + Block(ks[|es|]) + Block(vs[|es|])
  {
    assert PairIsNew(ks, vs, |es|);
    BlocksStep(ks, vs, |es|);
    hide Blocks, HoldsEntry;
    assert forall i :: 0 <= i < |es| ==> (es + [e])[i] == es[i];
    assert (es + [e])[|es|] == e;
  }

  /** Copies a stretch of `s` to the start of `dest` and terminates it. */
  method CopyText(dest: array<char>, s: Text, start: nat, end: nat)
    requires start <= end <= |s| && dest.Length == 1 + end - start
    modifies dest
    ensures HoldsString(dest, s[start..end])
  {
    for k := 0 to end - start
      invariant forall j :: 0 <= j < k ==> dest[j] == s[start + j]
    {
      dest[k] := s[start + k];
    }
    dest[end - start] := NUL;
  }

  ghost function After(prefix: string, rest: Option<string>): Option<string> {
    if rest.Some? then Some(prefix + rest.value) else None
  }

  lemma UnescapeUnfolds(t: string)
    requires t != [] && (t[0] == '\\' ==> |t| > 1)
    ensures t[0] != '\\' ==> Unescape(t) == After([t[0]], Unescape(t[1..]))
    ensures t[0] == '\\' ==> Unescape(t) == After([t[1]], Unescape(t[2..]))
  {
  }

  lemma AfterAfter(p: string, q: string, rest: Option<string>)
    ensures After(p, After(q, rest)) == After(p + q, rest)
  {
    assert rest.Some? ==> p + (q + rest.value) == p + q + rest.value;
  }

  lemma UnescapeEnds(prefix: string)
    ensures After(prefix, Unescape([])) == Some(prefix) && After(prefix, Unescape(['\\'])) == None
    ensures forall t: Option<string> :: After([], t) == t
  {
    assert prefix + [] == prefix;
    forall t: Option<string>
      ensures After([], t) == t
    {
      assert t.Some? ==> [] + t.value == t.value;
    }
  }

  /** Writes the unescaped form of a stretch of `s`, terminated, into a block sized for the escaped form. */
  method UnescapeText(dest: array<char>, s: Text, start: nat, end: nat) returns (ok: bool)
    requires start <= end <= |s| && dest.Length == 1 + end - start
    modifies dest
    ensures ok <==> Unescape(s[start..end]).Some?
    ensures ok ==> HoldsString(dest, Unescape(s[start..end]).value)
  {
    hide Unescape, After;
    UnescapeEnds([]);
    var from, to := start, 0;
    while from != end
      invariant start <= from <= end && to <= from - start
      invariant Unescape(s[start..end]) == After(dest[..to], Unescape(s[from..end]))
      decreases end - from
    {
      ghost var remaining, written := s[from..end], dest[..to];
      UnescapeEnds(written);
      if s[from] == '\\' {
        from := from + 1;
        if from == end {
          assert remaining == ['\\'];
          return false;
        }
        assert remaining[2..] == s[from + 1..end];
      } else {
        assert remaining[1..] == s[from + 1..end];
      }
      UnescapeUnfolds(remaining);
      AfterAfter(written, [s[from]], Unescape(s[from + 1..end]));
      dest[to] := s[from];
      assert dest[..to + 1] == written + [s[from]];
      to, from := to + 1, from + 1;
    }
    UnescapeEnds(dest[..to]);
    ghost var written := dest[..to];
    dest[to] := NUL;
    assert dest[..to] == written;
    ok := true;
  }

  class CommandParameters {
    var entries: nat
    var keys: array?<Pointer>
    var values: array?<Pointer>
    /** How many slots of each array growth has copied so far. */
    ghost var copied: nat

    constructor ()
      ensures Cleared()
    {
      entries, keys, values, copied := 0, null, null, 0;
    }

    predicate Cleared()
      reads this
    {
      entries == 0 && keys == null && values == null
    }

    /** Both arrays exist and have a slot for every entry. */
    predicate Allocated()
      reads this
    {
      keys != null && values != null && keys != values && entries <= keys.Length && entries <= values.Length
    }

    ghost function Strings(): set<array<char>>
      reads this, keys, values
    {
      if Allocated() then Blocks(keys[..], values[..], entries) else {}
    }

    ghost function Lists(): set<object>
      reads this
    {
      (if keys == null then {} else {keys}) + (if values == null then {} else {values})
    }

    /** Everything live beyond `others` belongs to this list, and no block of it is pointed to twice. */
    ghost predicate OwnsRest(pool: Pool, others: set<object>)
      reads this, keys, values, pool
    {
      && (Allocated() || (entries == 0 && (keys == null || values == null)))
      && (Allocated() ==> Distinct(keys[..], values[..], entries))
      && pool.live == others + Lists() + Strings()
      && others !! Lists() && others !! Strings()
    }

    /** The list holds exactly these entries, in order. */
    ghost predicate Holds(es: seq<Entry>)
      reads this, keys, values, Strings()
    {
      |es| == entries && (Allocated() ==> HoldsAll(keys[..], values[..], es))
    }

    /** Frees the strings of the list, each of them once. */
    method FreeStrings(pool: Pool, ghost others: set<object>)
      requires OwnsRest(pool, others) && Allocated()
      modifies pool`live
      ensures pool.live == others + Lists()
    {
      hide Blocks, Distinct;
      ghost var ks, vs := keys[..], values[..];
      NoBlocks(ks, vs);
      var i := 0;
      while i < entries
        invariant i <= entries && ks == keys[..] && vs == values[..]
        invariant pool.live == others + Lists() + (Blocks(ks, vs, entries) - Blocks(ks, vs, i))
      {
        PairIsFresh(ks, vs, i, entries);
        if keys[i] != null {
          pool.Free(keys[i]);
        }
        if values[i] != null {
          pool.Free(values[i]);
        }
        i := i + 1;
      }
    }

    /** Frees every block of the list, each of them once, and leaves it empty. */
    method CPDelete(pool: Pool, ghost others: set<object>)
      requires OwnsRest(pool, others)
      modifies this`entries, this`keys, this`values, pool`live
      ensures Cleared() && pool.live == others
    {
      if keys != null && values != null {
        FreeStrings(pool, others);
      }
      entries := 0;
      if keys != null {
        pool.Free(keys);
        keys := null;
      }
      if values != null {
        pool.Free(values);
        values := null;
      }
    }

    /** Moves the keys to a larger array. */
    method ReserveKeys(pool: Pool, maxEntries: nat, ghost es: seq<Entry>, ghost others: set<object>) returns (ok: bool)
      requires OwnsRest(pool, others) && entries <= maxEntries && Holds(es)
      modifies this`keys, this`copied, pool
      ensures OwnsRest(pool, others) && Holds(es)
      ensures pool.requests == old(pool.requests) + 1 && ok == (pool.address(old(pool.requests)) != 0)
      ensures !ok ==> keys == old(keys)
      ensures ok ==> keys != null && fresh(keys) && keys.Length == maxEntries
      ensures copied == old(copied) + if ok && old(keys) != null then entries else 0
    {
      hide Blocks, Distinct, HoldsAll;
      var newKeys := pool.AllocArray<Pointer>(maxEntries);
      if newKeys == null {
        return false;
      }
      if keys != null {
        CopyPointers(newKeys, keys, entries);
        if Allocated() {
          SlotsMoved(keys[..], values[..], newKeys[..], values[..], es);
        }
        copied := copied + entries;
        pool.Free(keys);
      }
      keys := newKeys;
      if entries == 0 && values != null {
        NoBlocks(keys[..], values[..]);
      }
      ok := true;
    }

    /** Moves the values to a larger array. */
    method ReserveValues(pool: Pool, maxEntries: nat, ghost es: seq<Entry>, ghost others: set<object>)
      returns (ok: bool)
      requires OwnsRest(pool, others) && entries <= maxEntries && Holds(es)
      requires keys != null && entries <= keys.Length
      modifies this`values, pool
      ensures OwnsRest(pool, others) && Holds(es)
      ensures pool.requests == old(pool.requests) + 1 && ok == (pool.address(old(pool.requests)) != 0)
      ensures !ok ==> values == old(values)
      ensures ok ==> values != null && fresh(values) && values.Length == maxEntries
    {
      hide Blocks, Distinct, HoldsAll;
      var newValues := pool.AllocArray<Pointer>(maxEntries);
      if newValues == null {
        return false;
      }
      if values != null {
        CopyPointers(newValues, values, entries);
        if Allocated() {
          SlotsMoved(keys[..], values[..], keys[..], newValues[..], es);
        }
        pool.Free(values);
      }
      values := newValues;
      if entries == 0 {
        NoBlocks(keys[..], values[..]);
      }
      ok := true;
    }

    /** Sets the slots past the entries to NULL. */
    method ClearSlots(pool: Pool, ghost es: seq<Entry>, ghost others: set<object>)
      requires OwnsRest(pool, others) && Allocated() && keys.Length == values.Length && Holds(es)
      modifies keys, values
      ensures OwnsRest(pool, others) && Holds(es)
      ensures forall i :: entries <= i < keys.Length ==> keys[i] == null && values[i] == null
    {
      hide Blocks, Distinct, HoldsAll;
      ghost var ks, vs := keys[..], values[..];
      for i := entries to keys.Length
        invariant SameSlots(ks, vs, keys[..], values[..], entries)
        invariant forall j :: entries <= j < i ==> keys[j] == null && values[j] == null
      {
        keys[i] := null;
        values[i] := null;
      }
      assert HoldsAll(ks, vs, es);
      SlotsMoved(ks, vs, keys[..], values[..], es);
    }

    /** Grows both arrays to `maxEntries` slots; it may fail after the first, and the list stays consistent. */
    method Reserve(pool: Pool, maxEntries: nat, ghost es: seq<Entry>, ghost others: set<object>) returns (ok: bool)
      requires OwnsRest(pool, others) && entries <= maxEntries && Holds(es)
      modifies this`keys, this`values, this`copied, pool
      ensures OwnsRest(pool, others) && Holds(es)
      ensures (keys == old(keys) || fresh(keys)) && (values == old(values) || fresh(values))
      ensures old(pool.requests) < pool.requests <= old(pool.requests) + 2
      ensures ok == pool.Granted(old(pool.requests), pool.requests)
      ensures ok ==>
        && pool.requests == old(pool.requests) + 2 && Allocated() && fresh(keys) && fresh(values)
        && keys.Length == values.Length == maxEntries
        && copied == old(copied) + (if old(keys) != null then entries else 0)
        && forall i :: entries <= i < maxEntries ==> keys[i] == null && values[i] == null
    {
      hide Blocks, Distinct, HoldsAll;
      ok := ReserveKeys(pool, maxEntries, es, others);
      if !ok {
        return;
      }
      ok := ReserveValues(pool, maxEntries, es, others);
      if !ok {
        return;
      }
      ClearSlots(pool, es, others);
    }

    /** Stores a fresh copy of the key in the next slot, with no value. */
    method AddKey(pool: Pool, s: Text, start: nat, end: nat, ghost es: seq<Entry>, ghost others: set<object>)
      returns (ok: bool)
      requires OwnsRest(pool, others) && Holds(es) && Allocated()
      requires entries < keys.Length && entries < values.Length && values[entries] == null
      requires start <= end <= |s|
      modifies this`entries, keys, pool
      ensures OwnsRest(pool, others) && pool.requests == old(pool.requests) + 1
      ensures ok == (pool.address(old(pool.requests)) != 0)
      ensures if ok then entries == old(entries) + 1 && Holds(es + [Entry(s[start..end], None)])
              else entries == old(entries)
    {
      hide Blocks, Distinct, HoldsAll, HoldsString;
      var block := pool.AllocArray<char>(1 + end - start);
      ghost var ks, vs := keys[..], values[..];
      keys[entries] := block;
      if block == null {
        SlotsMoved(ks, vs, keys[..], values[..], es);
        return false;
      }
      entries := entries + 1;
      CopyText(block, s, start, end);
      SlotsPushed(ks, vs, keys[..], values[..], es, Entry(s[start..end], None));
      ok := true;
    }

    /** Gives the last entry, which has none, the value written between `start` and `end`. */
    method AddValue(pool: Pool, s: Text, start: nat, end: nat, needsUnescaping: bool,
                    ghost es: seq<Entry>, ghost key: string, ghost others: set<object>) returns (code: int)
      requires OwnsRest(pool, others) && Holds(es + [Entry(key, None)]) && Allocated()
      requires start <= end <= |s|
      modifies values, pool
      ensures OwnsRest(pool, others) && pool.requests == old(pool.requests) + 1
      ensures forall i :: entries <= i < values.Length ==> values[i] == old(values[i])
      ensures var text := ValueText(s, start, end, needsUnescaping);
              if pool.address(old(pool.requests)) == 0 then code == OUT_OF_MEMORY
              else if text == None then code == UNTERMINATED_ESCAPE
              else code == 0 && Holds(es + [Entry(key, text)])
    {
      hide Blocks, Distinct, HoldsAll, HoldsString, Unescape;
      var index := entries - 1;
      ghost var ks, vs := keys[..], values[..];
      SlotsPopped(ks, vs, es, Entry(key, None));
      var block := pool.AllocArray<char>(1 + end - start);
      values[index] := block;
      if block == null {
        SlotsMoved(ks, vs, keys[..], values[..], es + [Entry(key, None)]);
        return OUT_OF_MEMORY;
      }
      SlotsMoved(ks, vs, keys[..], values[..], es);
      DistinctPushed(keys[..], values[..], index);
      if !needsUnescaping {
        CopyText(block, s, start, end);
      } else {
        var ok := UnescapeText(block, s, start, end);
        if !ok {
          return UNTERMINATED_ESCAPE;
        }
      }
      HoldsPushed(keys[..], values[..], es, Entry(key, ValueText(s, start, end, needsUnescaping)));
      code := 0;
    }

    /** Both arrays have `maxEntries` slots, and those past the entries hold no value. */
    predicate HasRoom(maxEntries: nat)
      reads this, keys, values
    {
      && Allocated() && keys.Length == values.Length == maxEntries
      && forall i :: entries <= i < maxEntries ==> values[i] == null
    }

    /** Growth doubles: few more slots than entries, and fewer slots copied than twice the entries. */
    ghost predicate GrewByDoubling(maxEntries: nat)
      reads this
    {
      && DEFAULT_RESERVE <= maxEntries && copied == maxEntries - DEFAULT_RESERVE
      && (maxEntries == DEFAULT_RESERVE || maxEntries < 2 * entries)
    }

    /** Appends one entry, growing the arrays when they are full. */
    method Append(pool: Pool, maxEntries: nat, s: Text, keyStart: nat, keyEnd: nat,
                  hasValue: bool, valueStart: nat, valueEnd: nat, needsUnescaping: bool,
                  ghost es: seq<Entry>, ghost others: set<object>) returns (code: int, newMax: nat)
      requires OwnsRest(pool, others) && Holds(es) && HasRoom(maxEntries) && GrewByDoubling(maxEntries)
      requires keyStart <= keyEnd <= |s| && (hasValue ==> valueStart <= valueEnd <= |s|)
      modifies this, keys, values, pool
      ensures OwnsRest(pool, others)
      ensures var values := if hasValue && valueStart != valueEnd then 1 else 0;
              var n := (if old(entries) == maxEntries then 2 else 0) + 1 + values;
              && old(pool.requests) < pool.requests <= old(pool.requests) + n
              && (pool.Granted(old(pool.requests), pool.requests) ==> pool.requests == old(pool.requests) + n)
      ensures newMax == if old(entries) == maxEntries then 2 * maxEntries else maxEntries
      ensures (keys == old(keys) || fresh(keys)) && (values == old(values) || fresh(values))
      ensures if !pool.Granted(old(pool.requests), pool.requests) then code == OUT_OF_MEMORY
              else if hasValue && valueStart != valueEnd && ValueText(s, valueStart, valueEnd, needsUnescaping) == None
              then code == UNTERMINATED_ESCAPE
              else
                var value := if !hasValue || valueStart == valueEnd then None
                             else ValueText(s, valueStart, valueEnd, needsUnescaping);
                && code == 0 && Holds(es + [Entry(s[keyStart..keyEnd], value)])
                && HasRoom(newMax) && GrewByDoubling(newMax)
    {
      hide Blocks, Distinct, HoldsAll, HoldsString, ValueText;
      newMax := maxEntries;
      if entries == maxEntries {
        newMax := newMax * 2;
        var reserved := Reserve(pool, newMax, es, others);
        if !reserved {
          return OUT_OF_MEMORY, newMax;
        }
      }
      var added := AddKey(pool, s, keyStart, keyEnd, es, others);
      if !added {
        return OUT_OF_MEMORY, newMax;
      }
      code := 0;
      if hasValue && valueStart != valueEnd {
        code := AddValue(pool, s, valueStart, valueEnd, needsUnescaping, es, s[keyStart..keyEnd], others);
      }
    }

    /** Scans the entry at `keyStart`, appends it and moves on to the next one. */
    method ParseNext(pool: Pool, maxEntries: nat, s: Text, keyStart: nat, ghost es: seq<Entry>,
                     ghost others: set<object>)
      returns (code: int, newMax: nat, next: nat)
      requires OwnsRest(pool, others) && Holds(es) && HasRoom(maxEntries) && GrewByDoubling(maxEntries)
      requires keyStart < |s| && !ParseEntry(s[keyStart..]).EntryOverrun?
      requires maxEntries == Capacity(|es|)
      modifies this, keys, values, pool
      ensures OwnsRest(pool, others)
      ensures var r := ParseEntry(s[keyStart..]);
              var n := if r.Read? then EntryRequests(|es|, r.entry) else 0;
              && old(pool.requests) <= pool.requests <= old(pool.requests) + n
              && (pool.Granted(old(pool.requests), pool.requests) ==> pool.requests == old(pool.requests) + n)
      ensures ParseEntry(s[keyStart..]).Read? ==> newMax == Capacity(|es| + 1)
      ensures (keys == old(keys) || fresh(keys)) && (values == old(values) || fresh(values))
      ensures var t := s[keyStart..];
              var granted := pool.Granted(old(pool.requests), pool.requests);
              match ParseEntry(t)
              case BadEntry(c) => granted && code == c
              case Read(e, length) =>
                if !granted then code == OUT_OF_MEMORY
                else
                  && code == 0 && keyStart < next <= |s| && s[next..] == SkipSpaces(t[length..])
                  && Holds(es + [e]) && HasRoom(newMax) && GrewByDoubling(newMax)
    {
      hide Blocks, Distinct, HoldsAll, HoldsString, ParseEntry, ValueText, GrewByDoubling;
      newMax, next := maxEntries, keyStart;
      var scan := ScanEntry(s, keyStart);
      if scan.Bad? {
        return scan.code, newMax, next;
      }
      code, newMax := Append(
        pool, maxEntries, s, keyStart, scan.keyEnd,
        scan.hasValue, scan.valueStart, scan.valueEnd, scan.needsUnescaping, es, others);
      if code != 0 {
        return;
      }
      next := FirstNonSpace(s, scan.entryEnd);
      assert s[keyStart..][scan.entryEnd - keyStart..] == s[scan.entryEnd..];
    }

    /** Parses a parameter string; any failure leaves the list empty and nothing of it allocated. */
    method ParseText(pool: Pool, s: Text, ghost others: set<object>) returns (code: int)
      requires Cleared() && copied == 0 && pool.live == others
      requires !Parse(s).Overrun?
      modifies this, pool
      ensures OwnsRest(pool, others)
      ensures old(pool.requests) <= pool.requests <= old(pool.requests) + Requests(s)
      ensures pool.Granted(old(pool.requests), pool.requests) ==> pool.requests == old(pool.requests) + Requests(s)
      ensures var granted := pool.Granted(old(pool.requests), pool.requests);
              if granted && Parse(s).Parsed? then
                && code == |Parse(s).entries| && Holds(Parse(s).entries)
                && (if entries == 0 then Cleared()
                    else exists maxEntries :: HasRoom(maxEntries) && GrewByDoubling(maxEntries))
              else
                && Cleared() && code == (if granted then Parse(s).code else OUT_OF_MEMORY)
    {
      hide Blocks, Distinct, HoldsAll, HoldsString, ParseEntry, SpaceLength, GrewByDoubling, Capacity, EntryRequests;
      hide ReadBefore, Parse, Requests, EntriesRequests;
      FirstCapacity();
      var maxEntries: nat := DEFAULT_RESERVE;
      ghost var es: seq<Entry> := [];
      var reserved := Reserve(pool, maxEntries, es, others);
      if !reserved {
        CPDelete(pool, others);
        return OUT_OF_MEMORY;
      }
      var keyStart := FirstNonSpace(s, 0);
      assert s[0..] == s && s[keyStart..] == SkipSpaces(s);
      NoneRead(s, keyStart);
      if At(s, keyStart) == NUL {
        AllRead(s, es);
        CPDelete(pool, others);
        return 0;
      }
      FirstReserve();
      while At(s, keyStart) != NUL
        invariant keyStart <= |s| && pool.requests == old(pool.requests) + 2 + EntriesRequests(es)
        invariant maxEntries == Capacity(|es|) && ReadBefore(s, keyStart, es)
        invariant OwnsRest(pool, others) && Holds(es) && HasRoom(maxEntries) && GrewByDoubling(maxEntries)
        invariant fresh(keys) && fresh(values)
        invariant pool.Granted(old(pool.requests), pool.requests)
        invariant es != [] || keyStart < |s|
        decreases |s| - keyStart
      {
        ghost var r := ParseEntry(s[keyStart..]);
        OneMoreRead(s, keyStart, es);
        var entryCode, newMax, next := ParseNext(pool, maxEntries, s, keyStart, es, others);
        if entryCode != 0 {
          CPDelete(pool, others);
          return entryCode;
        }
        ReadAfter(s, keyStart, es, next);
        es := es + [r.entry];
        maxEntries, keyStart := newMax, next;
      }
      AllRead(s, es);
      code := entries;
    }

    lemma FirstCapacity()
      ensures Capacity(0) == DEFAULT_RESERVE && EntriesRequests([]) == 0
    {
    }

    lemma FirstReserve()
      requires copied == 0
      ensures GrewByDoubling(DEFAULT_RESERVE)
    {
    }
  }

  /** `es` are the entries of `s` before `at`. */
  ghost predicate ReadBefore(s: Text, at: nat, es: seq<Entry>)
    requires at <= |s|
  {
    && Prepend(es, ParseEntries(s[at..])) == Parse(s)
    && es + ReadEntries(s[at..]) == ReadEntries(SkipSpaces(s))
  }

  lemma NoneRead(s: Text, at: nat)
    requires at <= |s| && s[at..] == SkipSpaces(s)
    ensures ReadBefore(s, at, [])
  {
    hide ParseEntries, ReadEntries;
    var rest := ParseEntries(s[at..]);
    assert rest.Parsed? ==> [] + rest.entries == rest.entries;
    assert [] + ReadEntries(s[at..]) == ReadEntries(s[at..]);
  }

  lemma AllRead(s: Text, es: seq<Entry>)
    requires ReadBefore(s, |s|, es)
    ensures Parse(s) == Parsed(es) && Requests(s) == 2 + EntriesRequests(es)
  {
    hide Parse;
    assert s[|s|..] == [] && es + [] == es;
  }

  /** What the entry at `at` adds to the entries read so far and to the requests made, or what it makes of the parse. */
  lemma OneMoreRead(s: Text, at: nat, es: seq<Entry>)
    requires at < |s| && ReadBefore(s, at, es)
    ensures var r := ParseEntry(s[at..]);
            && (r.EntryOverrun? ==> Parse(s) == Overrun)
            && (r.BadEntry? ==> Parse(s) == Rejected(r.code) && Requests(s) == 2 + EntriesRequests(es))
            && (r.Read? ==>
                  && EntriesRequests(es + [r.entry]) == EntriesRequests(es) + EntryRequests(|es|, r.entry)
                  && 2 + EntriesRequests(es + [r.entry]) <= Requests(s))
  {
    hide Parse, ParseEntry, EntryRequests, EntriesRequests;
    var t, r := s[at..], ParseEntry(s[at..]);
    if r.Read? {
      var after := SkipSpaces(t[r.length..]);
      var more := ReadEntries(after);
      assert es + ([r.entry] + more) == es + [r.entry] + more;
      NextRequests(es, r.entry);
      RequestsGrow(es + [r.entry], more);
    } else {
      assert es + [] == es;
    }
  }

  lemma ReadAfter(s: Text, at: nat, es: seq<Entry>, next: nat)
    requires at < |s| && ReadBefore(s, at, es) && next <= |s|
    requires var r := ParseEntry(s[at..]);
             r.Read? && s[next..] == SkipSpaces(s[at..][r.length..])
    ensures ReadBefore(s, next, es + [ParseEntry(s[at..]).entry])
  {
    hide Parse, ParseEntry, Prepend;
    var e := ParseEntry(s[at..]).entry;
    PrependAfter(es, e, ParseEntries(s[next..]));
    assert es + ([e] + ReadEntries(s[next..])) == es + [e] + ReadEntries(s[next..]);
  }

  lemma PrependAfter(es: seq<Entry>, e: Entry, rest: Outcome)
    ensures Prepend(es, Prepend([e], rest)) == Prepend(es + [e], rest)
  {
    assert rest.Parsed? ==> es + ([e] + rest.entries) == es + [e] + rest.entries;
  }

  /** Where one entry of the text ends, and where its value lies between its quotes. */
  datatype Scan =
    | Scan(keyEnd: nat, hasValue: bool, valueStart: nat, valueEnd: nat, needsUnescaping: bool, entryEnd: nat)
    | Bad(code: int)

  /** The value that the scan found, as the parser will store it. */
  function ScannedValue(s: Text, scan: Scan): Option<string>
    requires scan.Scan? && (scan.hasValue ==> scan.valueStart <= scan.valueEnd <= |s|)
  {
    if !scan.hasValue || scan.valueStart == scan.valueEnd then None
    else ValueText(s, scan.valueStart, scan.valueEnd, scan.needsUnescaping)
  }

  /** Scans the value after the key that ends at `keyEnd`, dropping its quotation marks. */
  method ScanValue(s: Text, keyEnd: nat) returns (scan: Scan)
    requires keyEnd < |s| && s[keyEnd] == '=' && !ParseValue(s[keyEnd..]).ValueOverrun?
    ensures var r := ParseValue(s[keyEnd..]);
            if scan.Bad? then r == BadValue(scan.code)
            else
              && scan.keyEnd == keyEnd && scan.hasValue && scan.valueStart <= scan.valueEnd <= |s|
              && keyEnd <= scan.entryEnd
              && ValueText(s, scan.valueStart, scan.valueEnd, scan.needsUnescaping).Some?
              && r == ReadValue(ScannedValue(s, scan), scan.entryEnd - keyEnd)
  {
    hide PlainLength, QuotedLength, Unescape;
    var valueStart := keyEnd + 1;
    ghost var v := s[valueStart..];
    assert s[keyEnd..][1..] == v;
    if At(s, valueStart) == '"' {
      assert v[1..] == s[valueStart + 1..];
    }
    var valueEnd, needsUnescaping := ValueEnd(s, valueStart);
    var entryEnd := valueEnd;
    if At(s, valueStart) == '"' {
      // The value lies between its quotes.
      valueStart := valueStart + 1;
      if At(s, valueEnd) != '"' {
        return Bad(UNTERMINATED_QUOTED_KEY);
      }
      // The closing quote belongs to this entry.
      entryEnd := entryEnd + 1;
      ghost var body := v[1..];
      ghost var m := QuotedLength(body).value;
      assert body[..m] == s[valueStart..valueEnd] == v[1..1 + m];
      ScannedUnescapes(body);
      if !needsUnescaping {
        PlainUnescapes(body[..m]);
      }
    } else {
      assert v[..PlainLength(v)] == s[valueStart..valueEnd];
    }
    scan := Scan(keyEnd, true, valueStart, valueEnd, needsUnescaping, entryEnd);
  }

  /** Scans the entry at `keyStart`; the result agrees with the grammar, and its value can be unescaped. */
  method ScanEntry(s: Text, keyStart: nat) returns (scan: Scan)
    requires keyStart < |s| && !ParseEntry(s[keyStart..]).EntryOverrun?
    ensures var r := ParseEntry(s[keyStart..]);
            if scan.Bad? then r == BadEntry(scan.code)
            else
              && keyStart <= scan.keyEnd <= |s| && keyStart <= scan.entryEnd
              && (scan.hasValue ==> scan.valueStart <= scan.valueEnd <= |s|)
              && (scan.hasValue ==> ValueText(s, scan.valueStart, scan.valueEnd, scan.needsUnescaping).Some?)
              && r == Read(Entry(s[keyStart..scan.keyEnd], ScannedValue(s, scan)), scan.entryEnd - keyStart)
  {
    hide KeyLength, ValueText;
    var keyEnd := KeyEnd(s, keyStart);
    if keyEnd == keyStart {
      return Bad(INVALID_KEY);
    }
    ghost var t, n := s[keyStart..], keyEnd - keyStart;
    assert t[..n] == s[keyStart..keyEnd] && t[n..] == s[keyEnd..];
    if At(s, keyEnd) != '=' {
      return Scan(keyEnd, false, 0, 0, false, keyEnd);
    }
    hide ParseValue;
    scan := ScanValue(s, keyEnd);
  }

  /** What the text of a value stands for; None for an escape at its end. */
  function ValueText(s: Text, start: nat, end: nat, needsUnescaping: bool): Option<string>
    requires start <= end <= |s|
  {
    if needsUnescaping then Unescape(s[start..end]) else Some(s[start..end])
  }

  method CopyPointers(dest: array<Pointer>, source: array<Pointer>, n: nat)
    requires dest != source && n <= dest.Length && n <= source.Length
    modifies dest
    ensures forall i :: 0 <= i < n ==> dest[i] == source[i]
  {
    for i := 0 to n
      invariant forall j :: 0 <= j < i ==> dest[j] == source[j]
    {
      dest[i] := source[i];
    }
  }

  /** Parses `params` into `result`, which it first clears; either may be NULL. */
  method CPParseCommandParameters(pool: Pool, params: Option<Text>, result: CommandParameters?,
                                  ghost others: set<object>)
    returns (code: int)
    requires pool.live == others
    requires params.Some? ==> !Parse(params.value).Overrun?
    modifies result, pool
    ensures result == null || params.None? ==> code == INVALID_INPUT && pool.live == others
    ensures pool.requests >= old(pool.requests)
    ensures result != null && params.Some? ==>
              && (code == OUT_OF_MEMORY <==>
                    !pool.Granted(old(pool.requests), old(pool.requests) + Requests(params.value)))
              && (code != OUT_OF_MEMORY ==> pool.requests == old(pool.requests) + Requests(params.value))
    ensures result != null ==> result.OwnsRest(pool, others)
    ensures code < 0 ==> pool.live == others && (result != null ==> result.Cleared())
    ensures result != null && params.Some? ==>
              var granted := pool.Granted(old(pool.requests), old(pool.requests) + Requests(params.value));
              var r := Parse(params.value);
              if !granted then code == OUT_OF_MEMORY
              else if r.Rejected? then code == r.code < 0
              else code == |r.entries| && result.Holds(r.entries)
  {
    if result == null {
      return INVALID_INPUT;
    }
    result.entries, result.keys, result.values, result.copied := 0, null, null, 0;
    if params.None? {
      return INVALID_INPUT;
    }
    code := result.ParseText(pool, params.value, others);
    RejectionsAreNegative(SkipSpaces(params.value));
  }

  lemma {:induction false} RejectionsAreNegative(t: string)
    ensures ParseEntries(t).Rejected? ==> ParseEntries(t).code < 0 && ParseEntries(t).code != OUT_OF_MEMORY
    decreases |t|
  {
    if t != [] && ParseEntry(t).Read? {
      RejectionsAreNegative(SkipSpaces(t[ParseEntry(t).length..]));
    }
  }

  // ---------- Lookup ----------

  /** strcmp(block, key) == 0. */
  method SameString(block: array<char>, key: Text, ghost held: string) returns (same: bool)
    requires HoldsString(block, held) && NUL !in held
    ensures same <==> held == key
  {
    var i := 0;
    while block[i] != NUL && i < |key| && block[i] == key[i]
      invariant i <= |key| && i <= |held| && held[..i] == key[..i]
      decreases |key| - i
    {
      assert block[i] == held[i];
      assert held[..i + 1] == held[..i] + [held[i]] && key[..i + 1] == key[..i] + [key[i]];
      i := i + 1;
    }
    assert i < |held| ==> block[i] == held[i] && held[i] in held;
    assert held[..|held|] == held && key[..|key|] == key;
    same := block[i] == NUL && i == |key|;
  }

  ghost predicate KeysAreText(es: seq<Entry>) {
    forall i :: 0 <= i < |es| ==> NUL !in es[i].key
  }

  /** The index of the first key equal to `key`, or the number of entries. */
  method FindKey(cp: CommandParameters, key: Text, ghost es: seq<Entry>) returns (i: nat)
    requires cp.Holds(es) && KeysAreText(es) && (cp.Allocated() || cp.entries == 0)
    ensures i <= |es| && FirstMatch(es, key) == if i == |es| then None else Some(es[i])
  {
    i := 0;
    assert es[0..] == es;
    while i < cp.entries
      invariant i <= |es| && FirstMatch(es, key) == FirstMatch(es[i..], key)
    {
      assert HoldsEntry(cp.keys[..][i], cp.values[..][i], es[i]);
      var same := SameString(cp.keys[i], key, es[i].key);
      if same {
        return;
      }
      assert es[i..][1..] == es[i + 1..];
      i := i + 1;
    }
  }

  method CPHasKey(key: Option<Text>, cp: CommandParameters?, ghost es: seq<Entry>) returns (found: bool)
    requires cp != null ==> cp.Holds(es) && KeysAreText(es) && (cp.Allocated() || cp.entries == 0)
    ensures found <==> cp != null && key.Some? && exists i :: 0 <= i < |es| && es[i].key == key.value
  {
    if cp == null || key.None? {
      return false;
    }
    var i := FindKey(cp, key.value, es);
    found := i < cp.entries;
  }

  /** The value of the first entry with the key; NULL when there is none or it has no value. */
  method CPGetString(key: Option<Text>, cp: CommandParameters?, ghost es: seq<Entry>)
    returns (found: bool, result: Pointer)
    requires cp != null ==> cp.Holds(es) && KeysAreText(es) && (cp.Allocated() || cp.entries == 0)
    ensures found <==> result != null
    ensures found <==>
              cp != null && key.Some? && FirstMatch(es, key.value).Some? && FirstMatch(es, key.value).value.value.Some?
    ensures found ==> HoldsString(result, FirstMatch(es, key.value).value.value.value)
  {
    result := null;
    if cp == null || key.None? {
      return false, null;
    }
    var i := FindKey(cp, key.value, es);
    if i == cp.entries {
      return false, null;
    }
    assert HoldsEntry(cp.keys[..][i], cp.values[..][i], es[i]);
    result := cp.values[i];
    found := result != null;
  }

  /** What the C library's strtoul reads from a string: a value and how many characters it consumed. */
  datatype Number = Number(value: Dword, length: nat)

  /** The value of the first entry with the key, if the whole of it is a number. */
  function NumberParameter(es: seq<Entry>, key: string, strtoul: string -> Number): Option<Dword> {
    var first := FirstMatch(es, key);
    if first.None? || first.value.value.None? then None
    else
      var text := first.value.value.value;
      var n := strtoul(text);
      if n.length != 0 && n.length == |text| then Some(n.value) else None
  }

  /** The string that starts at a pointer. */
  method ReadString(block: array<char>, ghost held: string) returns (s: string)
    requires HoldsString(block, held) && NUL !in held
    ensures s == held
  {
    var i := 0;
    s := [];
    assert forall k :: 0 <= k < |held| ==> held[k] in held && held[k] != NUL;
    while block[i] != NUL
      invariant i <= |held| && s == held[..i]
      decreases |held| - i
    {
      assert held[..i + 1] == held[..i] + [held[i]];
      s := s + [block[i]];
      i := i + 1;
    }
  }

  /** What is stored besides: zero, unless the text starts with no number at all. */
  function StoredNumber(es: seq<Entry>, key: string, strtoul: string -> Number): Dword {
    var first := FirstMatch(es, key);
    if first.None? || first.value.value.None? then 0
    else
      var text := first.value.value.value;
      var n := strtoul(text);
      if n.length == 0 || n.length == |text| then n.value else 0
  }

  method CPGetUInt32(key: Option<Text>, cp: CommandParameters?, strtoul: string -> Number, ghost es: seq<Entry>)
    returns (found: bool, result: Dword)
    requires cp != null ==>
               && cp.Holds(es) && KeysAreText(es) && (cp.Allocated() || cp.entries == 0)
               && forall i :: 0 <= i < |es| && es[i].value.Some? ==> NUL !in es[i].value.value
    ensures found <==> cp != null && key.Some? && NumberParameter(es, key.value, strtoul).Some?
    ensures found ==> result == NumberParameter(es, key.value, strtoul).value
    ensures result == if cp == null || key.None? then 0 else StoredNumber(es, key.value, strtoul)
  {
    var present, block := CPGetString(key, cp, es);
    if !present {
      return false, 0;
    }
    var text := ReadString(block, FirstMatch(es, key.value).value.value.value);
    var n := strtoul(text);
    result := n.value;
    if n.length == 0 {
      return false, result;
    }
    // Trailing characters make it no number.
    if n.length != |text| {
      return false, 0;
    }
    found := true;
  }
}
