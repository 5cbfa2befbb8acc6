/** The parser of the bootstrap as a machine of jumps and registers, and whether its runs end. */
module HexMachine {
  import opened Words
  import opened Wrappers
  import HexText

  /** Where the program counter stands; `Fault` is a read past the end of the string. */
  datatype Label = Loop | Hex | LowercaseHex | Accumulate | Done | Fault

  datatype State = State(pc: Label, esi: nat, eax: Dword, ecx: Dword)

  /** `mov cl, c`: the low byte of ecx is replaced. */
  function MoveLow(ecx: Dword, c: Byte): Dword {
    ecx - ecx % 0x100 + c
  }

  /** The instructions from a label to the next jump taken. */
  function Step(s: Bytes, st: State): State {
    match st.pc
    case Loop =>
      if st.esi >= |s| then st.(pc := Fault)
      else
        var ecx := MoveLow(st.ecx, s[st.esi]);
        if ecx == 0 || ecx < 0x30 then State(Done, st.esi, st.eax, ecx)
        else if ecx > 0x39 then State(Hex, st.esi, st.eax, ecx)
        else State(Accumulate, st.esi, st.eax, ecx - 0x30)
    case Hex =>
      if st.ecx < 0x41 then st.(pc := Done)
      else if st.ecx > 0x46 then st.(pc := LowercaseHex)
      else st.(pc := Accumulate, ecx := st.ecx - (0x41 - 10))
    case LowercaseHex =>
      if st.ecx < 0x61 then st.(pc := Done)
      else if st.ecx > 0x66 then st
      else st.(pc := Accumulate, ecx := st.ecx - (0x61 - 10))
    case Accumulate => State(Loop, st.esi + 1, Wrap(Wrap(st.eax * 16) + st.ecx), st.ecx)
    case Done | Fault => st
  }

  function Run(s: Bytes, st: State, n: nat): State
    decreases n
  {
    if n == 0 then st else Run(s, Step(s, st), n - 1)
  }

  predicate Ended(st: State) {
    st.pc.Done? || st.pc.Fault?
  }

  /** The registers after the prefix has been read. */
  function Start(p: nat): State {
    State(Loop, p + 2, 0, 0)
  }

  lemma {:induction false} RunsOn(s: Bytes, st: State, m: nat, n: nat)
    ensures Run(s, st, m + n) == Run(s, Run(s, st, m), n)
    decreases m
  {
    if m > 0 {
      RunsOn(s, Step(s, st), m - 1, n);
    }
  }

  lemma {:induction false} StaysThere(s: Bytes, st: State, n: nat)
    requires Step(s, st) == st
    ensures Run(s, st, n) == st
  {
    if n > 0 {
      StaysThere(s, st, n - 1);
    }
  }

  /** A run that reaches a state which steps to itself has ended at some time only if it ends in that state. */
  lemma EndsThere(s: Bytes, st: State, n: nat, m: nat)
    requires var last := Run(s, st, n); Step(s, last) == last
    ensures Ended(Run(s, st, m)) ==> Ended(Run(s, st, n))
  {
    if m <= n {
      RunsOn(s, st, m, n - m);
      if Ended(Run(s, st, m)) {
        StaysThere(s, Run(s, st, m), n - m);
      }
    } else {
      RunsOn(s, st, n, m - n);
      StaysThere(s, Run(s, st, n), m - n);
    }
  }

  /** The first jump of a round, on the character at esi. */
  lemma AtLoop(s: Bytes, st: State)
    requires st.pc.Loop? && st.ecx < 0x100 && st.esi < |s|
    ensures var c := s[st.esi];
            Step(s, st) == if c < 0x30 then State(Done, st.esi, st.eax, c)
                           else if c > 0x39 then State(Hex, st.esi, st.eax, c)
                           else State(Accumulate, st.esi, st.eax, c - 0x30)
  {
    assert MoveLow(st.ecx, s[st.esi]) == s[st.esi];
  }

  lemma AtAccumulate(s: Bytes, st: State)
    requires st.pc.Accumulate?
    ensures Step(s, st) == State(Loop, st.esi + 1, Wrap(st.eax * 16 + st.ecx), st.ecx)
  {
    assert Wrap(st.ecx) == st.ecx;
    hide Wrap;
    WrapSum(st.eax * 16, st.ecx);
  }

  /** What one round does with the character at esi. */
  lemma OneRound(s: Bytes, st: State) returns (n: nat)
    requires st.pc.Loop? && st.ecx < 0x100 && st.esi < |s|
    ensures var c, last := s[st.esi], Run(s, st, n);
            match HexText.DigitValue(c)
            case Some(d) => last == State(Loop, st.esi + 1, Wrap(st.eax * 16 + d), d)
            case None =>
              && Step(s, last) == last && last.esi == st.esi && last.eax == st.eax
              && last.pc == if c > 0x66 then LowercaseHex else Done
  {
    hide Run, Wrap, Step;
    var c := s[st.esi];
    RunFour(s, st);
    AtLoop(s, st);
    if c < 0x30 {
      n := 1;
      Rests(s, Run(s, st, 1));
    } else if c <= 0x39 {
      n := 2;
      AtAccumulate(s, Run(s, st, 1));
    } else {
      n := FromHex(s, Run(s, st, 1));
      RunsOn(s, st, 1, n);
      n := n + 1;
    }
  }

  /** The machine stays where it is done, and at the comparison of a character above `f`. */
  lemma Rests(s: Bytes, st: State)
    requires st.pc.Done? || (st.pc.LowercaseHex? && st.ecx > 0x66)
    ensures Step(s, st) == st
  {
  }

  /** The rest of a round for a character above `9`. */
  lemma FromHex(s: Bytes, st: State) returns (n: nat)
    requires st.pc.Hex? && 0x39 < st.ecx < 0x100
    ensures var last := Run(s, st, n);
            match HexText.DigitValue(st.ecx)
            case Some(d) => last == State(Loop, st.esi + 1, Wrap(st.eax * 16 + d), d)
            case None =>
              && Step(s, last) == last && last.esi == st.esi && last.eax == st.eax
              && last.pc == if st.ecx > 0x66 then LowercaseHex else Done
  {
    hide Run, Wrap;
    RunFour(s, st);
    n := if st.ecx < 0x41 then 1 else if st.ecx <= 0x46 then 2
         else if st.ecx < 0x61 then 2 else if st.ecx <= 0x66 then 3 else 1;
    if HexText.DigitValue(st.ecx).Some? {
      AtAccumulate(s, Run(s, st, n - 1));
    } else {
      Rests(s, Run(s, st, n));
    }
  }

  /** Runs of up to four steps, written out. */
  lemma RunFour(s: Bytes, st: State)
    ensures var s1 := Step(s, st); var s2 := Step(s, s1); var s3 := Step(s, s2);
            Run(s, st, 1) == s1 && Run(s, st, 2) == s2 && Run(s, st, 3) == s3 && Run(s, st, 4) == Step(s, s3)
  {
    hide Step;
    var s1 := Step(s, st);
    var s2 := Step(s, s1);
    var s3 := Step(s, s2);
    assert Run(s, Step(s, s3), 0) == Step(s, s3);
    assert Run(s, s3, 1) == Step(s, s3) && Run(s, s3, 0) == s3;
    assert Run(s, s2, 2) == Step(s, s3) && Run(s, s2, 1) == s3 && Run(s, s2, 0) == s2;
    assert Run(s, s1, 3) == Step(s, s3) && Run(s, s1, 2) == s3 && Run(s, s1, 1) == s2 && Run(s, s1, 0) == s1;
  }

  /** The state in which a scan of the string from `st` on comes to rest, or circles. */
  ghost predicate Settles(s: Bytes, st: State, last: State) {
    match HexText.Scan(s, st.esi, st.eax)
    case Number(value, next) => last.pc.Done? && last.eax == value && last.esi == next
    case Diverges => last.pc.LowercaseHex?
    case Undefined => last.pc.Fault?
    case NoPrefix => false
  }

  lemma {:induction false} Settle(s: Bytes, st: State) returns (n: nat)
    requires st.pc.Loop? && st.ecx < 0x100
    ensures var last := Run(s, st, n); Step(s, last) == last && Settles(s, st, last)
    decreases |s| - st.esi
  {
    if st.esi >= |s| {
      n := 1;
      RunFour(s, st);
    } else {
      var k := OneRound(s, st);
      var after := Run(s, st, k);
      if HexText.DigitValue(s[st.esi]).Some? {
        var m := Settle(s, after);
        n := k + m;
        RunsOn(s, st, k, m);
      } else {
        n := k;
      }
    }
  }

  /** After the prefix, some state of the run is an end of it. */
  ghost predicate Stops(s: Bytes, p: nat) {
    exists n: nat :: Ended(Run(s, Start(p), n))
  }

  /**
    The run never ends if and only if the character after the digits is above `f`; and when it ends with a value, or
    past the string, that is what the parser is said to return.
  */
  lemma HangsExactly(s: Bytes, p: nat)
    requires p + 2 <= |s| && s[p..p + 2] == HexText.PREFIX
    ensures var q := p + 2 + HexText.DigitRun(s, p + 2);
            && (!Stops(s, p) <==> q < |s| && s[q] > 0x66)
            && (!Stops(s, p) <==> HexText.Parse(s, p).Diverges?)
    ensures forall n: nat :: Ended(Run(s, Start(p), n)) ==>
              var last := Run(s, Start(p), n);
              HexText.Parse(s, p) == if last.pc.Done? then HexText.Number(last.eax, last.esi) else HexText.Undefined
  {
    hide HexText.Scan, Run, Step;
    HexText.DivergesExactly(s, p + 2, 0);
    var n := Settle(s, Start(p));
    forall m: nat
      ensures Ended(Run(s, Start(p), m)) ==> Ended(Run(s, Start(p), n)) && Run(s, Start(p), m) == Run(s, Start(p), n)
    {
      EndsThere(s, Start(p), n, m);
      SameEnd(s, Start(p), m, n);
    }
  }

  /** A run has one end. */
  lemma SameEnd(s: Bytes, st: State, m: nat, n: nat)
    ensures Ended(Run(s, st, m)) && Ended(Run(s, st, n)) ==> Run(s, st, m) == Run(s, st, n)
  {
    if m <= n {
      RunsOn(s, st, m, n - m);
      if Ended(Run(s, st, m)) {
        StaysThere(s, Run(s, st, m), n - m);
      }
    } else {
      RunsOn(s, st, n, m - n);
      if Ended(Run(s, st, n)) {
        StaysThere(s, Run(s, st, n), m - n);
      }
    }
  }

  /** On `0xg` the machine is soon at the comparison that it repeats for ever. */
  lemma HangsOnLetter()
    ensures var s := [0x30, 0x78, 0x67, 0];
            HexText.Parse(s, 0) == HexText.Diverges && !Stops(s, 0)
  {
    var s := [0x30, 0x78, 0x67, 0];
    assert s[0..2] == HexText.PREFIX;
    HangsExactly(s, 0);
  }
}
