/** The module registry as a value: an insertion-ordered map from module and ordinal to an export. */
module RegistryModel {
  import opened Words
  import opened Wrappers

  datatype Export = Export(ordinal: Dword, name: Option<Bytes>, alias: Option<Bytes>, address: Dword)

  datatype ModuleTable = ModuleTable(name: Bytes, exports: seq<Export>)

  type Contents = seq<ModuleTable>

  // ---------- Registration ----------

  /** `exports` with `e` in place of the export of its ordinal, or after all of them. */
  function PutExport(exports: seq<Export>, e: Export): seq<Export> {
    if exports == [] then [e]
    else if exports[0].ordinal == e.ordinal then [e] + exports[1..]
    else [exports[0]] + PutExport(exports[1..], e)
  }

  function Put(c: Contents, name: Bytes, e: Export): Contents {
    if c == [] then [ModuleTable(name, [e])]
    else if c[0].name == name then [ModuleTable(name, PutExport(c[0].exports, e))] + c[1..]
    else [c[0]] + Put(c[1..], name, e)
  }

  datatype Registration = Registration(name: Bytes, export_: Export)

  function PutAll(c: Contents, regs: seq<Registration>): Contents
    decreases |regs|
  {
    if regs == [] then c else PutAll(Put(c, regs[0].name, regs[0].export_), regs[1..])
  }

  // ---------- Lookup ----------

  function FindModule(c: Contents, name: Bytes): seq<Export> {
    if c == [] then []
    else if c[0].name == name then c[0].exports
    else FindModule(c[1..], name)
  }

  function FindOrdinal(exports: seq<Export>, ordinal: Dword): Option<Export> {
    if exports == [] then None
    else if exports[0].ordinal == ordinal then Some(exports[0])
    else FindOrdinal(exports[1..], ordinal)
  }

  /** The first export with the name, its own or its alias. */
  function FindName(exports: seq<Export>, name: Bytes): Option<Export> {
    if exports == [] then None
    else if exports[0].name == Some(name) || exports[0].alias == Some(name) then Some(exports[0])
    else FindName(exports[1..], name)
  }

  function Lookup(c: Contents, name: Bytes, ordinal: Dword): Option<Export> {
    FindOrdinal(FindModule(c, name), ordinal)
  }

  // ---------- The invariant of every run ----------

  ghost predicate OrdinalsUnique(exports: seq<Export>) {
    forall i, j :: 0 <= i < j < |exports| ==> exports[i].ordinal != exports[j].ordinal
  }

  /** Module names are unique, no module is empty, and ordinals are unique in each. */
  ghost predicate WellFormed(c: Contents) {
    && (forall i, j :: 0 <= i < j < |c| ==> c[i].name != c[j].name)
    && forall i :: 0 <= i < |c| ==> c[i].exports != [] && OrdinalsUnique(c[i].exports)
  }

  lemma {:induction false} PutExportShape(exports: seq<Export>, e: Export)
    ensures var r := PutExport(exports, e);
            && |r| == |exports| + (if FindOrdinal(exports, e.ordinal).Some? then 0 else 1)
            && (forall i :: 0 <= i < |exports| ==> r[i].ordinal == exports[i].ordinal)
            && (forall i :: 0 <= i < |exports| && exports[i].ordinal != e.ordinal ==> r[i] == exports[i])
            && (FindOrdinal(exports, e.ordinal).None? ==> r[|exports|] == e)
            && (FindOrdinal(exports, e.ordinal).None? <==>
                  forall i :: 0 <= i < |exports| ==> exports[i].ordinal != e.ordinal)
  {
    if exports != [] {
      PutExportShape(exports[1..], e);
      assert forall i :: 1 <= i < |exports| ==> exports[i] == exports[1..][i - 1];
    }
  }

  /** Registration replaces in place or appends: no module or export already there moves or changes otherwise. */
  lemma {:induction false} PutShape(c: Contents, name: Bytes, e: Export)
    ensures var r := Put(c, name, e);
            && |r| == |c| + (if FindModule(c, name) == [] && forall i :: 0 <= i < |c| ==> c[i].name != name
                             then 1 else 0)
            && (forall i :: 0 <= i < |c| ==> r[i].name == c[i].name)
            && (forall i :: 0 <= i < |c| && c[i].name != name ==> r[i] == c[i])
            && (|r| == |c| + 1 ==> r[|c|] == ModuleTable(name, [e]))
  {
    if c != [] && c[0].name != name {
      PutShape(c[1..], name, e);
    }
  }

  lemma {:induction false} PutKeepsWellFormed(c: Contents, name: Bytes, e: Export)
    requires WellFormed(c)
    ensures WellFormed(Put(c, name, e))
  {
    if c != [] {
      if c[0].name == name {
        PutExportShape(c[0].exports, e);
      } else {
        PutKeepsWellFormed(c[1..], name, e);
        PutShape(c[1..], name, e);
      }
    }
  }

  /** Every run of registrations from the empty registry keeps the invariant. */
  lemma {:induction false} RunsAreWellFormed(c: Contents, regs: seq<Registration>)
    requires WellFormed(c)
    ensures WellFormed(PutAll(c, regs))
    decreases |regs|
  {
    if regs != [] {
      PutKeepsWellFormed(c, regs[0].name, regs[0].export_);
      RunsAreWellFormed(Put(c, regs[0].name, regs[0].export_), regs[1..]);
    }
  }

  // ---------- The map law ----------

  lemma {:induction false} FindAfterPutExport(exports: seq<Export>, e: Export, ordinal: Dword)
    ensures FindOrdinal(PutExport(exports, e), ordinal)
            == if ordinal == e.ordinal then Some(e) else FindOrdinal(exports, ordinal)
  {
    if exports != [] {
      FindAfterPutExport(exports[1..], e, ordinal);
    }
  }

  /** A registration sets the export of its own key and no other. */
  lemma {:induction false} LookupAfterPut(c: Contents, name: Bytes, e: Export, module': Bytes, ordinal: Dword)
    ensures Lookup(Put(c, name, e), module', ordinal)
            == if module' == name && ordinal == e.ordinal then Some(e) else Lookup(c, module', ordinal)
  {
    var r := Put(c, name, e);
    if c == [] {
      assert r[1..] == [];
      FindAfterPutExport([], e, ordinal);
    } else {
      assert r[1..] == if c[0].name == name then c[1..] else Put(c[1..], name, e);
      if c[0].name == name {
        FindAfterPutExport(c[0].exports, e, ordinal);
      } else {
        LookupAfterPut(c[1..], name, e, module', ordinal);
      }
    }
  }

  /** The last registration of a key, if any. */
  function LastRegistered(regs: seq<Registration>, name: Bytes, ordinal: Dword): Option<Export> {
    if regs == [] then None
    else
      var last := regs[|regs| - 1];
      if last.name == name && last.export_.ordinal == ordinal then Some(last.export_)
      else LastRegistered(regs[..|regs| - 1], name, ordinal)
  }

  lemma {:induction false} PutAllLast(c: Contents, regs: seq<Registration>, r: Registration)
    ensures PutAll(c, regs + [r]) == Put(PutAll(c, regs), r.name, r.export_)
    decreases |regs|
  {
    if regs == [] {
      assert ([] + [r])[1..] == [] && ([] + [r])[0] == r;
    } else {
      assert (regs + [r])[1..] == regs[1..] + [r];
      PutAllLast(Put(c, regs[0].name, regs[0].export_), regs[1..], r);
    }
  }

  /** After any run, a lookup by ordinal finds the last registration of that module and ordinal. */
  lemma {:induction false} LookupAfterRun(regs: seq<Registration>, name: Bytes, ordinal: Dword)
    ensures Lookup(PutAll([], regs), name, ordinal) == LastRegistered(regs, name, ordinal)
    decreases |regs|
  {
    if regs != [] {
      var before, r := regs[..|regs| - 1], regs[|regs| - 1];
      assert regs == before + [r];
      PutAllLast([], before, r);
      LookupAfterPut(PutAll([], before), r.name, r.export_, name, ordinal);
      LookupAfterRun(before, name, ordinal);
    }
  }

  // ---------- The name law ----------

  lemma {:induction false} FindModuleAfterPut(c: Contents, name: Bytes, e: Export, module': Bytes)
    ensures FindModule(Put(c, name, e), module')
            == if module' == name then PutExport(FindModule(c, name), e) else FindModule(c, module')
  {
    var r := Put(c, name, e);
    if c == [] {
      assert r[1..] == [];
    } else {
      assert r[1..] == if c[0].name == name then c[1..] else Put(c[1..], name, e);
      if c[0].name != name {
        FindModuleAfterPut(c[1..], name, e, module');
      }
    }
  }

  predicate Registers(r: Registration, name: Bytes, ordinal: Dword) {
    r.name == name && r.export_.ordinal == ordinal
  }

  /** The ordinals of a module in the order of their first registrations. */
  function OrdinalsOf(regs: seq<Registration>, name: Bytes): seq<Dword> {
    if regs == [] then []
    else
      var before, last := OrdinalsOf(regs[..|regs| - 1], name), regs[|regs| - 1];
      if last.name == name && last.export_.ordinal !in before then before + [last.export_.ordinal] else before
  }

  /** A run leaves in each module the last registrations of its ordinals, in the order of their first ones. */
  lemma {:induction false} TableAfterRun(regs: seq<Registration>, name: Bytes)
    ensures var exports, ordinals := FindModule(PutAll([], regs), name), OrdinalsOf(regs, name);
            && |exports| == |ordinals|
            && forall k :: 0 <= k < |ordinals| ==>
                 exports[k].ordinal == ordinals[k] && LastRegistered(regs, name, ordinals[k]) == Some(exports[k])
    decreases |regs|
  {
    hide Put, PutAll, PutExport, FindModule;
    if regs == [] {
      NothingRegistered(name);
    } else {
      var before, r := regs[..|regs| - 1], regs[|regs| - 1];
      assert regs == before + [r];
      PutAllLast([], before, r);
      FindModuleAfterPut(PutAll([], before), r.name, r.export_, name);
      TableAfterRun(before, name);
      if r.name == name {
        PutKeepsTable(before, r);
      }
    }
  }

  lemma NothingRegistered(name: Bytes)
    ensures FindModule(PutAll([], []), name) == []
  {
  }

  /** The step of `TableAfterRun` for a registration in the module itself. */
  lemma PutKeepsTable(before: seq<Registration>, r: Registration)
    requires var exports, ordinals := FindModule(PutAll([], before), r.name), OrdinalsOf(before, r.name);
             && |exports| == |ordinals|
             && forall k :: 0 <= k < |ordinals| ==>
                  exports[k].ordinal == ordinals[k] && LastRegistered(before, r.name, ordinals[k]) == Some(exports[k])
    ensures var regs := before + [r];
            var exports := PutExport(FindModule(PutAll([], before), r.name), r.export_);
            var ordinals := OrdinalsOf(regs, r.name);
            && |exports| == |ordinals|
            && forall k :: 0 <= k < |ordinals| ==>
                 exports[k].ordinal == ordinals[k] && LastRegistered(regs, r.name, ordinals[k]) == Some(exports[k])
  {
    hide Put, PutAll, PutExport, FindModule;
    var regs := before + [r];
    assert regs[..|regs| - 1] == before;
    var exports, ordinal := FindModule(PutAll([], before), r.name), r.export_.ordinal;
    RunsAreWellFormed([], before);
    ModuleIsUnique(PutAll([], before), r.name);
    if k :| 0 <= k < |exports| && exports[k].ordinal == ordinal {
      assert OrdinalsOf(before, r.name)[k] == ordinal;
      PutExportAt(exports, k, r.export_);
    } else {
      forall k | 0 <= k < |exports|
        ensures OrdinalsOf(before, r.name)[k] != ordinal
      {
        assert exports[k].ordinal == OrdinalsOf(before, r.name)[k];
      }
      PutExportNew(exports, r.export_);
    }
  }

  lemma {:induction false} ModuleIsUnique(c: Contents, name: Bytes)
    requires WellFormed(c)
    ensures OrdinalsUnique(FindModule(c, name))
  {
    if c != [] && c[0].name != name {
      ModuleIsUnique(c[1..], name);
    }
  }

  /** The last registration of the ordinal has the name. */
  predicate LeftWith(regs: seq<Registration>, module': Bytes, ordinal: Dword, name: Bytes) {
    var e := LastRegistered(regs, module', ordinal);
    e.Some? && (e.value.name == Some(name) || e.value.alias == Some(name))
  }

  /** The last registration of the first of the ordinals whose last registration has the name. */
  function FirstNamed(regs: seq<Registration>, module': Bytes, ordinals: seq<Dword>, name: Bytes): Option<Export> {
    if ordinals == [] then None
    else if LeftWith(regs, module', ordinals[0], name) then LastRegistered(regs, module', ordinals[0])
    else FirstNamed(regs, module', ordinals[1..], name)
  }

  lemma {:induction false} FirstNamedFinds(
      regs: seq<Registration>, module': Bytes, ordinals: seq<Dword>, exports: seq<Export>, name: Bytes)
    requires |exports| == |ordinals|
    requires forall k :: 0 <= k < |ordinals| ==> LastRegistered(regs, module', ordinals[k]) == Some(exports[k])
    ensures FindName(exports, name) == FirstNamed(regs, module', ordinals, name)
  {
    if ordinals != [] {
      FirstNamedFinds(regs, module', ordinals[1..], exports[1..], name);
    }
  }

  /** `first` was registered in the module before `second` was for the first time. */
  ghost predicate RegisteredBefore(regs: seq<Registration>, module': Bytes, first: Dword, second: Dword) {
    exists i :: 0 <= i < |regs| && Registers(regs[i], module', first)
                && forall k :: 0 <= k <= i ==> !Registers(regs[k], module', second)
  }

  /**
    After any run, a lookup by name finds something exactly when some ordinal's last registration has the name or has
    it as its alias, and then it finds the last registration of the first registered of these ordinals.
  */
  lemma NameAfterRun(regs: seq<Registration>, module': Bytes, name: Bytes)
    ensures var found := FindName(FindModule(PutAll([], regs), module'), name);
            && found == FirstNamed(regs, module', OrdinalsOf(regs, module'), name)
            && (found.Some? <==> exists o: Dword :: LeftWith(regs, module', o, name))
            && (found.Some? ==> found.value.name == Some(name) || found.value.alias == Some(name))
            && (found.Some? ==>
                  && LastRegistered(regs, module', found.value.ordinal) == found
                  && LeftWith(regs, module', found.value.ordinal, name)
                  && forall o: Dword :: RegisteredBefore(regs, module', o, found.value.ordinal) ==>
                       !LeftWith(regs, module', o, name))
  {
    hide FindModule, PutAll, FindName, LastRegistered, OrdinalsOf, RegisteredBefore;
    TableAfterRun(regs, module');
    var exports, ordinals := FindModule(PutAll([], regs), module'), OrdinalsOf(regs, module');
    FirstNamedFinds(regs, module', ordinals, exports, name);
    var k := FirstNamedAt(exports, name);
    forall o: Dword | LastRegistered(regs, module', o).Some?
      ensures exists i :: 0 <= i < |ordinals| && ordinals[i] == o
    {
      OrdinalIsListed(regs, module', o);
    }
    if k < |exports| {
      assert LeftWith(regs, module', exports[k].ordinal, name);
      forall o: Dword | RegisteredBefore(regs, module', o, exports[k].ordinal)
        ensures !LeftWith(regs, module', o, name)
      {
        var i := EarlierIsListed(regs, module', o, k);
      }
    }
  }

  /** A lookup by name finds the first export that has it as its name or its alias, and nothing if there is none. */
  lemma {:induction false} FirstNamedAt(exports: seq<Export>, name: Bytes) returns (k: nat)
    ensures k <= |exports|
    ensures forall i :: 0 <= i < k ==> exports[i].name != Some(name) && exports[i].alias != Some(name)
    ensures k < |exports| ==> exports[k].name == Some(name) || exports[k].alias == Some(name)
    ensures FindName(exports, name) == if k < |exports| then Some(exports[k]) else None
  {
    if exports == [] || exports[0].name == Some(name) || exports[0].alias == Some(name) {
      k := 0;
    } else {
      var n := FirstNamedAt(exports[1..], name);
      k := n + 1;
    }
  }

  lemma {:induction false} OrdinalIsListed(regs: seq<Registration>, name: Bytes, ordinal: Dword)
    ensures LastRegistered(regs, name, ordinal).Some? <==> ordinal in OrdinalsOf(regs, name)
    decreases |regs|
  {
    if regs != [] {
      OrdinalIsListed(regs[..|regs| - 1], name, ordinal);
    }
  }

  /** An ordinal registered before the `k`-th of the list was is listed before it. */
  lemma {:induction false} EarlierIsListed(regs: seq<Registration>, name: Bytes, ordinal: Dword, k: nat)
    returns (i: nat)
    requires k < |OrdinalsOf(regs, name)| && RegisteredBefore(regs, name, ordinal, OrdinalsOf(regs, name)[k])
    ensures i < k && OrdinalsOf(regs, name)[i] == ordinal
    decreases |regs|
  {
    var before, r := regs[..|regs| - 1], regs[|regs| - 1];
    var ordinals := OrdinalsOf(before, name);
    var at :| 0 <= at < |regs| && Registers(regs[at], name, ordinal)
      && forall j :: 0 <= j <= at ==> !Registers(regs[j], name, OrdinalsOf(regs, name)[k]);
    if k < |ordinals| {
      ListedIsRegistered(before, name, k);
      var j :| 0 <= j < |before| && Registers(before[j], name, ordinals[k]);
      assert regs[j] == before[j] && at < j;
      assert Registers(before[at], name, ordinal);
      assert forall j :: 0 <= j <= at ==> before[j] == regs[j];
      i := EarlierIsListed(before, name, ordinal, k);
    } else {
      assert Registers(r, name, OrdinalsOf(regs, name)[k]);
      assert at < |before| && before[at] == regs[at];
      RegisteredIsListed(before, name, at);
      i :| 0 <= i < |ordinals| && ordinals[i] == ordinal;
    }
  }

  lemma {:induction false} ListedIsRegistered(regs: seq<Registration>, name: Bytes, k: nat)
    requires k < |OrdinalsOf(regs, name)|
    ensures exists j :: 0 <= j < |regs| && Registers(regs[j], name, OrdinalsOf(regs, name)[k])
    decreases |regs|
  {
    var before := regs[..|regs| - 1];
    if k < |OrdinalsOf(before, name)| {
      ListedIsRegistered(before, name, k);
      var j :| 0 <= j < |before| && Registers(before[j], name, OrdinalsOf(before, name)[k]);
      assert Registers(regs[j], name, OrdinalsOf(regs, name)[k]);
    } else {
      assert Registers(regs[|regs| - 1], name, OrdinalsOf(regs, name)[k]);
    }
  }

  lemma {:induction false} RegisteredIsListed(regs: seq<Registration>, name: Bytes, at: nat)
    requires at < |regs| && regs[at].name == name
    ensures regs[at].export_.ordinal in OrdinalsOf(regs, name)
    decreases |regs|
  {
    var before := regs[..|regs| - 1];
    if at < |before| {
      RegisteredIsListed(before, name, at);
    }
  }

  lemma TwoRegistrations(name: Bytes, first: Export, second: Export)
    ensures FindModule(PutAll([], [Registration(name, first), Registration(name, second)]), name)
            == PutExport([first], second)
  {
    var r1, r2 := Registration(name, first), Registration(name, second);
    assert [r1, r2] == ([] + [r1]) + [r2] && PutAll([], []) == [];
    PutAllLast([], [], r1);
    PutAllLast([], [] + [r1], r2);
    FindModuleAfterPut([], name, first, name);
    FindModuleAfterPut(Put([], name, first), name, second, name);
  }

  /** Of two ordinals with one name the first registered answers, though the other was registered last. */
  lemma FirstOfANameAnswers(module': Bytes, name: Bytes)
    ensures var first, second := Export(1, Some(name), None, 0x10), Export(2, Some(name), None, 0x20);
            var regs := [Registration(module', first), Registration(module', second)];
            FindName(FindModule(PutAll([], regs), module'), name) == Some(first)
  {
    hide FindModule, PutAll;
    TwoRegistrations(module', Export(1, Some(name), None, 0x10), Export(2, Some(name), None, 0x20));
  }

  /** A name that was registered is not found when its ordinal has been registered again under another. */
  lemma RenamedIsNotFound(module': Bytes, name: Bytes, other: Bytes)
    requires name != other
    ensures var first, second := Export(1, Some(name), None, 0x10), Export(1, Some(other), None, 0x20);
            var regs := [Registration(module', first), Registration(module', second)];
            FindName(FindModule(PutAll([], regs), module'), name) == None
  {
    hide FindModule, PutAll;
    TwoRegistrations(module', Export(1, Some(name), None, 0x10), Export(1, Some(other), None, 0x20));
  }

  /** An export answers to its name and to its alias, and to no other name. */
  lemma AliasAnswers(module': Bytes, name: Bytes, alias: Bytes, third: Bytes)
    requires third != name && third != alias
    ensures var first, second := Export(1, None, None, 0x10), Export(2, Some(name), Some(alias), 0x20);
            var regs := [Registration(module', first), Registration(module', second)];
            var exports := FindModule(PutAll([], regs), module');
            FindName(exports, name) == Some(second) && FindName(exports, alias) == Some(second)
            && FindName(exports, third) == None
  {
    hide FindModule, PutAll;
    TwoRegistrations(module', Export(1, None, None, 0x10), Export(2, Some(name), Some(alias), 0x20));
    var e := Export(2, Some(name), Some(alias), 0x20);
    var exports := [Export(1, None, None, 0x10), e];
    assert PutExport([exports[0]], e) == exports;
    FindNameAt(exports, 1, name);
    FindNameAt(exports, 1, alias);
    FindNameAt(exports, 2, third);
  }

  // ---------- Enumeration order ----------

  datatype Item = Item(name: Bytes, export_: Export)

  function Items(t: ModuleTable): seq<Item> {
    seq(|t.exports|, i requires 0 <= i < |t.exports| => Item(t.name, t.exports[i]))
  }

  function Flatten(c: Contents): seq<Item> {
    if c == [] then [] else Items(c[0]) + Flatten(c[1..])
  }

  /** How many exports the modules before the `t`-th have. */
  function Offset(c: Contents, t: nat): nat
    requires t <= |c|
  {
    if t == 0 then 0 else |c[0].exports| + Offset(c[1..], t - 1)
  }

  lemma {:induction false} FlattenAt(c: Contents, t: nat, i: nat)
    requires t < |c| && i < |c[t].exports|
    ensures Offset(c, t) + i < |Flatten(c)|
    ensures Flatten(c)[Offset(c, t) + i] == Item(c[t].name, c[t].exports[i])
  {
    if t > 0 {
      FlattenAt(c[1..], t - 1, i);
    }
  }

  lemma {:induction false} OffsetNext(c: Contents, t: nat)
    requires t < |c|
    ensures Offset(c, t + 1) == Offset(c, t) + |c[t].exports|
  {
    if t > 0 {
      OffsetNext(c[1..], t - 1);
    }
  }

  lemma OffsetStart(c: Contents)
    ensures Offset(c, 0) == 0
  {
  }

  lemma {:induction false} OffsetEnd(c: Contents)
    ensures Offset(c, |c|) == |Flatten(c)|
  {
    if c != [] {
      OffsetEnd(c[1..]);
    }
  }

  /** No (module, ordinal) pair is enumerated twice. */
  lemma {:induction false} FlattenIsUnique(c: Contents, i: nat, j: nat)
    requires WellFormed(c) && i < j < |Flatten(c)|
    ensures var a, b := Flatten(c)[i], Flatten(c)[j];
            a.name != b.name || a.export_.ordinal != b.export_.ordinal
  {
    var n := |c[0].exports|;
    if i >= n {
      FlattenIsUnique(c[1..], i - n, j - n);
    } else if j >= n {
      FlattenNames(c[1..], j - n);
    }
  }

  lemma {:induction false} FlattenNames(c: Contents, i: nat)
    requires i < |Flatten(c)|
    ensures exists t :: 0 <= t < |c| && Flatten(c)[i].name == c[t].name
  {
    var n := |c[0].exports|;
    if i >= n {
      FlattenNames(c[1..], i - n);
      var t :| 0 <= t < |c[1..]| && Flatten(c[1..])[i - n].name == c[1..][t].name;
      assert c[t + 1] == c[1..][t];
    } else {
      assert Flatten(c)[i].name == c[0].name;
    }
  }

  /** Replacing an export keeps the number of exports; any other registration adds one. */
  lemma {:induction false} CountAfterPut(c: Contents, name: Bytes, e: Export)
    ensures |Flatten(Put(c, name, e))| == |Flatten(c)| + if Lookup(c, name, e.ordinal).Some? then 0 else 1
  {
    var r := Put(c, name, e);
    if c == [] {
      assert r[1..] == [];
    } else if c[0].name == name {
      assert r[1..] == c[1..];
      PutExportShape(c[0].exports, e);
    } else {
      assert r[1..] == Put(c[1..], name, e);
      CountAfterPut(c[1..], name, e);
    }
  }

  // ---------- Registration at a known place ----------

  ghost predicate HasModule(c: Contents, name: Bytes) {
    exists i :: 0 <= i < |c| && c[i].name == name
  }

  lemma {:induction false} PutExportAt(exports: seq<Export>, i: nat, e: Export)
    requires i < |exports| && exports[i].ordinal == e.ordinal
    requires forall j :: 0 <= j < i ==> exports[j].ordinal != e.ordinal
    ensures PutExport(exports, e) == exports[i := e] && FindOrdinal(exports, e.ordinal) == Some(exports[i])
  {
    if i > 0 {
      PutExportAt(exports[1..], i - 1, e);
    }
  }

  lemma {:induction false} PutExportNew(exports: seq<Export>, e: Export)
    requires forall j :: 0 <= j < |exports| ==> exports[j].ordinal != e.ordinal
    ensures PutExport(exports, e) == exports + [e] && FindOrdinal(exports, e.ordinal) == None
  {
    if exports != [] {
      PutExportNew(exports[1..], e);
    }
  }

  lemma {:induction false} PutAt(c: Contents, i: nat, name: Bytes, e: Export)
    requires i < |c| && c[i].name == name && forall j :: 0 <= j < i ==> c[j].name != name
    ensures Put(c, name, e) == c[i := ModuleTable(name, PutExport(c[i].exports, e))]
    ensures FindModule(c, name) == c[i].exports
  {
    if i > 0 {
      PutAt(c[1..], i - 1, name, e);
    }
  }

  lemma {:induction false} PutNew(c: Contents, name: Bytes, e: Export)
    requires forall j :: 0 <= j < |c| ==> c[j].name != name
    ensures Put(c, name, e) == c + [ModuleTable(name, [e])] && FindModule(c, name) == []
  {
    if c != [] {
      PutNew(c[1..], name, e);
    }
  }

  lemma {:induction false} FindModuleAt(c: Contents, i: nat, name: Bytes)
    requires i < |c| && c[i].name == name && forall j :: 0 <= j < i ==> c[j].name != name
    ensures FindModule(c, name) == c[i].exports
  {
    if i > 0 {
      FindModuleAt(c[1..], i - 1, name);
    }
  }

  lemma {:induction false} FindNoModule(c: Contents, name: Bytes)
    requires forall j :: 0 <= j < |c| ==> c[j].name != name
    ensures FindModule(c, name) == []
  {
    if c != [] {
      FindNoModule(c[1..], name);
    }
  }

  lemma {:induction false} FindOrdinalAt(exports: seq<Export>, i: nat, ordinal: Dword)
    requires i <= |exports| && forall j :: 0 <= j < i ==> exports[j].ordinal != ordinal
    requires i < |exports| ==> exports[i].ordinal == ordinal
    ensures FindOrdinal(exports, ordinal) == if i < |exports| then Some(exports[i]) else None
  {
    if i > 0 {
      FindOrdinalAt(exports[1..], i - 1, ordinal);
    }
  }

  lemma {:induction false} FindNameAt(exports: seq<Export>, i: nat, name: Bytes)
    requires i <= |exports|
    requires forall j :: 0 <= j < i ==> exports[j].name != Some(name) && exports[j].alias != Some(name)
    requires i < |exports| ==> exports[i].name == Some(name) || exports[i].alias == Some(name)
    ensures FindName(exports, name) == if i < |exports| then Some(exports[i]) else None
  {
    if i > 0 {
      FindNameAt(exports[1..], i - 1, name);
    }
  }

  lemma {:induction false} PutAddsModule(c: Contents, name: Bytes, e: Export)
    ensures HasModule(Put(c, name, e), name)
  {
    var r := Put(c, name, e);
    if c != [] && c[0].name != name {
      PutAddsModule(c[1..], name, e);
      var i :| 0 <= i < |r[1..]| && r[1..][i].name == name;
      assert r[i + 1].name == name;
    } else {
      assert r[0].name == name;
    }
  }
}
