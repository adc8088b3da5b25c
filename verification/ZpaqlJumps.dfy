/** Structured jumps: what if and do blocks, which may cross, become in byte code, and where the interpreter goes. */
module ZpaqlJumps {
  import opened Bytes
  import opened Results

  const JT: byte := 39
  const JF: byte := 47
  const JMP: byte := 63
  const LJ: byte := 255

  /** When a jump is taken. */
  datatype Test = WhenTrue | WhenFalse | Always

  // ---------------------------------------------------------------- the interpreter's jumps

  /** A byte of the program; behind its end the header holds zeros. */
  function ByteAt(code: seq<byte>, k: nat): byte { if k < |code| then code[k] else 0 }

  /** Where a jump instruction at pc leads; -1 for the error of a long jump out of the program. */
  function Execute(code: seq<byte>, base: nat, pc: nat, f: bool): int {
    var op, n, at := ByteAt(code, pc), ByteAt(code, pc + 1), pc + 1;
    if op == LJ then
      var to := base + n + 256 * ByteAt(code, pc + 2);
      if to >= |code| then -1 else to
    else if (op == JT && f) || (op == JF && !f) || op == JMP then at + (n + 128) % 256 - 127
    else at + 1
  }

  /** Where a jump made of one or two instructions in [from, to) leads. */
  function Leaves(code: seq<byte>, base: nat, from: nat, to: nat, f: bool): int {
    var pc := Execute(code, base, from, f);
    if from < pc < to then Execute(code, base, pc, f) else pc
  }

  predicate Taken(test: Test, f: bool) {
    match test
    case WhenTrue => f
    case WhenFalse => !f
    case Always => true
  }

  // ---------------------------------------------------------------- jumps in the code

  function OpOf(test: Test): byte {
    match test
    case WhenTrue => JT
    case WhenFalse => JF
    case Always => JMP
  }

  function Opposite(test: Test): Test {
    match test
    case WhenTrue => WhenFalse
    case WhenFalse => WhenTrue
    case Always => Always
  }

  /** The bytes in front of the operand: a long jump with a test is jumped over by a short one. */
  function Head(test: Test, long: bool): (h: seq<byte>)
    ensures 1 <= |h| <= 3 && h[|h| - 1] == if long then LJ else OpOf(test)
  {
    if !long then [OpOf(test)]
    else if test == Always then [LJ]
    else [OpOf(Opposite(test)), 3, LJ]
  }

  /**
   The jumps in numbers: 39 jumps when the flag is true, 47 when it is false, 63 always; the long one is 255, in
   front of which the opposite short one jumps over the three bytes.
   */
  lemma HeadInNumbers(test: Test)
    ensures Head(test, false) == [if Taken(test, true) && Taken(test, false) then 63 else if Taken(test, true) then 39 else 47]
    ensures Head(test, true) == if Taken(test, true) && Taken(test, false) then [255]
                                else [if Taken(test, true) then 47 else 39, 3, 255]
  {
  }

  /** How far a byte jumps. */
  function Signed(n: byte): int { if n < 128 then n else n - 256 }

  /**
   What the interpreter does with them: 39, 47 and 63 jump from behind the operand or go on there; 255 goes to the
   place its two bytes say, the low one first.
   */
  lemma ExecuteInNumbers(code: seq<byte>, base: nat, pc: nat, f: bool)
    requires pc + 2 < |code|
    ensures (code[pc] == 39 && f) || (code[pc] == 47 && !f) || code[pc] == 63 ==>
              Execute(code, base, pc, f) == pc + 2 + Signed(code[pc + 1])
    ensures (code[pc] == 39 && !f) || (code[pc] == 47 && f) ==> Execute(code, base, pc, f) == pc + 2
    ensures code[pc] == 255 ==>
              var to: int := base + code[pc + 1] as int + 256 * code[pc + 2] as int;
              Execute(code, base, pc, f) == if to < |code| then to else -1
  {
    var n: int := code[pc + 1];
    assert (n + 128) % 256 - 127 == 1 + Signed(n);
  }

  /** An if compiled at the beginning of the code, short or long. */
  lemma IfInNumbers(s: State, base: nat, unless: Flag, long: bool)
    requires |s.ifs| < STACK_SIZE
    ensures Compiled(s, base, If(unless, long)).Ok?
    ensures
      var op: byte := if unless.OnTrue? then 39 else 47;
      Compiled(s, base, If(unless, long)).value.code
      == s.code + if long then [86 - op, 3, 255, 0, 0] else [op, 0]
  {
    HeadInNumbers(TestOf(If(unless, long)));
    var h := Head(TestOf(If(unless, long)), long);
    assert s.code + h + (if long then [0, 0] else [0]) == s.code + (h + if long then [0, 0] else [0]);
  }

  function Operands(long: bool): nat { if long then 2 else 1 }

  /** A jump in [from, to), its operand aside. */
  predicate HeadAt(code: seq<byte>, from: nat, to: nat, test: Test, long: bool) {
    && to == from + |Head(test, long)| + Operands(long) && to <= |code|
    && code[from..to - Operands(long)] == Head(test, long)
  }

  /** The operand in front of to leads to dest. */
  predicate OperandAt(code: seq<byte>, base: nat, to: nat, long: bool, dest: int) {
    && 2 <= to <= |code|
    && if long then
         0 <= dest - base < 65536 && code[to - 2] as int == (dest - base) % 256 && code[to - 1] as int == (dest - base) / 256
       else
         -128 <= dest - to <= 127 && code[to - 1] as int == (dest - to) % 256
  }

  predicate JumpsTo(code: seq<byte>, base: nat, from: nat, to: nat, test: Test, long: bool, dest: int) {
    HeadAt(code, from, to, test, long) && OperandAt(code, base, to, long, dest)
  }

  lemma SignedByte(to: int, dest: int, n: byte)
    requires -128 <= dest - to <= 127 && n == (dest - to) % 256
    ensures to - 1 + (n + 128) % 256 - 127 == dest
  {
  }

  lemma ShortLeaves(code: seq<byte>, base: nat, from: nat, to: nat, test: Test, dest: int, f: bool)
    requires JumpsTo(code, base, from, to, test, false, dest) && !(from < dest < to)
    ensures Leaves(code, base, from, to, f) == if Taken(test, f) then dest else to
  {
    assert code[from] == code[from..to - 1][0];
    SignedByte(to, dest, code[to - 1]);
    assert Execute(code, base, from, f) == if Taken(test, f) then dest else to;
  }

  lemma LongLeaves(code: seq<byte>, base: nat, from: nat, to: nat, test: Test, dest: int, f: bool)
    requires JumpsTo(code, base, from, to, test, true, dest) && dest < |code| && !(from < dest < to)
    ensures Leaves(code, base, from, to, f) == if Taken(test, f) then dest else to
  {
    var h := Head(test, true);
    assert forall k :: 0 <= k < |h| ==> code[from + k] == code[from..to - 2][k] == h[k];
  }

  /** Long or short, a jump is left for its destination when it is taken, and for what follows it when it is not. */
  lemma JumpLeaves(code: seq<byte>, base: nat, from: nat, to: nat, test: Test, long: bool, dest: int, f: bool)
    requires JumpsTo(code, base, from, to, test, long, dest) && dest < |code| && !(from < dest < to)
    ensures Leaves(code, base, from, to, f) == if Taken(test, f) then dest else to
  {
    if long {
      LongLeaves(code, base, from, to, test, dest, f);
    } else {
      ShortLeaves(code, base, from, to, test, dest, f);
    }
  }

  // ---------------------------------------------------------------- the compiler

  /** An if jumps over its block when the flag is not as it wants it; other instructions are any bytes. */
  datatype Token =
    | Plain(code: seq<byte>)
    | If(unless: Flag, long: bool)
    | Else(long: bool)
    | Endif
    | Do
    | Loop(test: Test)

  /** ifnot jumps when the flag is true, if when it is false. */
  datatype Flag = OnTrue | OnFalse

  predicate Opens(t: Token) { t.If? || t.Else? }
  predicate Closes(t: Token) { t.Else? || t.Endif? }

  function TestOf(t: Token): Test
    requires Opens(t)
  {
    if t.Else? then Always else if t.unless.OnTrue? then WhenTrue else WhenFalse
  }

  datatype Error = TooDeep | Unmatched | IfTooBig | ProgramTooBig | Wild

  const STACK_SIZE := 1000
  const HEADER_SIZE := 68000
  const GAP := 128

  /** No program is longer, the header in front of it included. */
  const LIMIT := 65665

  /** No header is shorter: seven bytes and a gap of zeros. */
  const FRONT := GAP + 7

  /** The code so far, with the header in front of it, and the two stacks of 16-bit addresses. */
  datatype State = State(code: seq<byte>, ifs: seq<nat>, dos: seq<nat>)

  function Pushed(stack: seq<nat>, x: nat): Result<seq<nat>, Error> {
    if |stack| >= STACK_SIZE then Err(TooDeep) else Ok(stack + [x % 65536])
  }

  /** A jump with its operand still 0; what is pushed is the address of the operand. */
  function OpenJump(s: State, test: Test, long: bool): Result<State, Error> {
    match Pushed(s.ifs, |s.code| + |Head(test, long)|)
    case Err(e) => Err(e)
    case Ok(ifs) => Ok(State(s.code + Head(test, long) + (if long then [0, 0] else [0]), ifs, s.dos))
  }

  /** Sets the operand of the jump pushed last; an address that is none is an error. */
  function Close(s: State, base: nat, dest: nat): Result<State, Error> {
    if s.ifs == [] then Err(Unmatched)
    else
      var a, ifs := s.ifs[|s.ifs| - 1], s.ifs[..|s.ifs| - 1];
      if a < 1 || a + 1 > |s.code| || (s.code[a - 1] == LJ && a + 2 > |s.code|) || dest < base then Err(Wild)
      else if s.code[a - 1] == LJ then
        Ok(State(s.code[a := (dest - base) % 256][a + 1 := (dest - base) / 256 % 256], ifs, s.dos))
      else if dest - a - 1 > 127 then Err(IfTooBig)
      else Ok(State(s.code[a := (dest - a - 1) % 256], ifs, s.dos))
  }

  /** The jump back to the address pushed last, short if it can be. */
  function JumpBack(s: State, base: nat, test: Test): Result<State, Error> {
    if s.dos == [] then Err(Unmatched)
    else
      var a, dos := s.dos[|s.dos| - 1], s.dos[..|s.dos| - 1];
      var j := a - |s.code| - 2;
      if j >= -127 then Ok(State(s.code + Head(test, false) + [j % 256], s.ifs, dos))
      else
        var to := a - base;
        Ok(State(s.code + Head(test, true) + [to % 256] + (if to >= 0 then [to / 256 % 256] else []), s.ifs, dos))
  }

  function Compiled(s: State, base: nat, t: Token): Result<State, Error> {
    match t
    case Plain(code) => Ok(s.(code := s.code + code))
    case If(_, long) => OpenJump(s, TestOf(t), long)
    case Else(long) =>
      (match Close(s, base, |s.code| + 2 + if long then 1 else 0)
       case Err(e) => Err(e)
       case Ok(s1) => OpenJump(s1, Always, long))
    case Endif => Close(s, base, |s.code|)
    case Do =>
      (match Pushed(s.dos, |s.code|)
       case Err(e) => Err(e)
       case Ok(dos) => Ok(s.(dos := dos)))
    case Loop(test) => JumpBack(s, base, test)
  }

  /** What is left of the header, and the size that its first two bytes have to hold. */
  predicate TooBig(n: nat, base: nat) { n >= HEADER_SIZE - 130 || n - base + (base - GAP) - 2 > 65535 }

  function Step(s: State, base: nat, t: Token): Result<State, Error> {
    match Compiled(s, base, t)
    case Err(e) => Err(e)
    case Ok(s1) => if TooBig(|s1.code|, base) then Err(ProgramTooBig) else Ok(s1)
  }

  /** The tokens compiled one after the other behind the header. */
  function Run(header: seq<byte>, ts: seq<Token>): Result<State, Error> {
    if ts == [] then Ok(State(header, [], []))
    else
      match Run(header, ts[..|ts| - 1])
      case Err(e) => Err(e)
      case Ok(s) => Step(s, |header|, ts[|ts| - 1])
  }

  // ---------------------------------------------------------------- which token belongs to which

  /** The ifs and elses that are open behind the tokens, innermost last. */
  function OpenIfs(ts: seq<Token>): (o: seq<nat>)
    ensures forall i :: 0 <= i < |o| ==> o[i] < |ts| && Opens(ts[o[i]])
  {
    if ts == [] then []
    else
      var m := |ts| - 1;
      var o := OpenIfs(ts[..m]);
      var inner := if Closes(ts[m]) && o != [] then o[..|o| - 1] else o;
      assert forall i :: 0 <= i < |inner| ==> inner[i] == o[i] && ts[inner[i]] == ts[..m][o[i]];
      if Opens(ts[m]) then inner + [m] else inner
  }

  ghost predicate Rising(o: seq<nat>) { forall i, j :: 0 <= i < j < |o| ==> o[i] < o[j] }

  lemma RisingMore(o: seq<nat>, inner: seq<nat>, m: nat)
    requires Rising(o) && inner <= o && forall i :: 0 <= i < |inner| ==> inner[i] < m
    ensures Rising(inner) && Rising(inner + [m])
  {
    assert forall i :: 0 <= i < |inner| ==> inner[i] == o[i];
  }

  lemma {:induction false} IfsRise(ts: seq<Token>)
    ensures Rising(OpenIfs(ts))
    decreases |ts|
  {
    if ts != [] {
      var m := |ts| - 1;
      var o := OpenIfs(ts[..m]);
      IfsRise(ts[..m]);
      RisingMore(o, if Closes(ts[m]) && o != [] then o[..|o| - 1] else o, m);
    }
  }

  function OpenDos(ts: seq<Token>): (o: seq<nat>)
    ensures forall i :: 0 <= i < |o| ==> o[i] < |ts| && ts[o[i]].Do?
  {
    if ts == [] then []
    else
      var m := |ts| - 1;
      var o := OpenDos(ts[..m]);
      assert forall i :: 0 <= i < |o| ==> ts[o[i]] == ts[..m][o[i]];
      if ts[m].Do? then o + [m] else if ts[m].Loop? && o != [] then o[..|o| - 1] else o
  }

  function Last(o: seq<nat>): nat
    requires o != []
  {
    o[|o| - 1]
  }

  /** at[k] is the address of the code of token k. */
  ghost predicate Addresses(header: seq<byte>, ts: seq<Token>, at: seq<nat>) {
    |at| == |ts| + 1 && forall k :: 0 <= k <= |ts| ==> EndsAt(header, ts[..k], at[k])
  }

  ghost predicate EndsAt(header: seq<byte>, ts: seq<Token>, n: nat) {
    Run(header, ts).Ok? && |Run(header, ts).value.code| == n
  }

  /** Where the jump in front of a closing token leads: behind the else, or to the endif. */
  function DestOf(at: seq<nat>, ts: seq<Token>, u: nat): nat
    requires |at| == |ts| + 1 && u < |ts|
  {
    if ts[u].Else? then at[u + 1] else at[u]
  }

  // ---------------------------------------------------------------- what compiling keeps

  /** The address of the operand of the jump of token k. */
  function OperandOf(ts: seq<Token>, at: seq<nat>, k: nat): int
    requires k < |ts| && |at| == |ts| + 1 && Opens(ts[k])
  {
    at[k + 1] - Operands(ts[k].long)
  }

  /** The stack has addresses as 16-bit numbers. */
  ghost predicate IfEntry(ts: seq<Token>, at: seq<nat>, x: nat, k: nat) {
    k < |ts| && |at| == |ts| + 1 && Opens(ts[k]) && x == OperandOf(ts, at, k) % 65536
  }

  /** The operand in front of to is still 0. */
  predicate Unset(code: seq<byte>, to: nat, long: bool) {
    2 <= to <= |code| && code[to - 1] == 0 && (long ==> code[to - 2] == 0)
  }

  /** The jump of token k is in the code, its operand aside; one whose address the stack cannot hold is never set. */
  ghost predicate Opened(ts: seq<Token>, at: seq<nat>, code: seq<byte>, k: nat)
    requires k < |ts| && |at| == |ts| + 1
  {
    Opens(ts[k]) ==>
      && HeadAt(code, at[k], at[k + 1], TestOf(ts[k]), ts[k].long)
      && (OperandOf(ts, at, k) >= 65536 ==> Unset(code, at[k + 1], ts[k].long))
  }

  /** The jump of token o, unless it is too late, leads to dest. */
  ghost predicate ClosedTo(base: nat, ts: seq<Token>, at: seq<nat>, code: seq<byte>, o: nat, dest: nat)
    requires |at| == |ts| + 1 && o < |ts| && Opens(ts[o])
  {
    OperandOf(ts, at, o) < 65536 ==> JumpsTo(code, base, at[o], at[o + 1], TestOf(ts[o]), ts[o].long, dest)
  }

  /** The jump that token u closes leads where it should, and is not open any more. */
  ghost predicate Closed(base: nat, ts: seq<Token>, at: seq<nat>, code: seq<byte>, u: nat)
    requires u < |ts| && |at| == |ts| + 1
  {
    Closes(ts[u]) ==>
      && OpenIfs(ts[..u]) != []
      && var t := Last(OpenIfs(ts[..u]));
         t !in OpenIfs(ts) && ClosedTo(base, ts, at, code, t, DestOf(at, ts, u))
  }

  /** A jump back is short or long. */
  predicate JumpsBack(code: seq<byte>, base: nat, from: nat, to: nat, test: Test, dest: int) {
    JumpsTo(code, base, from, to, test, false, dest) || JumpsTo(code, base, from, to, test, true, dest)
  }

  /** A long jump back without the upper byte of its operand. */
  predicate CutBack(code: seq<byte>, base: nat, from: nat, to: nat, test: Test, dest: int) {
    from <= to <= |code| && code[from..to] == Head(test, true) + [(dest - base) % 256]
  }

  /** A loop leads to its do, unless that is too late. */
  predicate LoopsTo(code: seq<byte>, base: nat, from: nat, to: nat, test: Test, dest: int) {
    if dest < 65536 then JumpsBack(code, base, from, to, test, dest) else CutBack(code, base, from, to, test, dest)
  }

  /** What the jump back of token u is. */
  ghost predicate Looped(base: nat, ts: seq<Token>, at: seq<nat>, code: seq<byte>, u: nat)
    requires u < |ts| && |at| == |ts| + 1
  {
    ts[u].Loop? ==>
      && OpenDos(ts[..u]) != []
      && LoopsTo(code, base, at[u], at[u + 1], ts[u].test, at[Last(OpenDos(ts[..u]))])
  }

  ghost predicate Placed(header: seq<byte>, ts: seq<Token>, at: seq<nat>, s: State) {
    && |at| == |ts| + 1 && at[0] == |header| && at[|ts|] == |s.code| && forall i, j :: 0 <= i <= j <= |ts| ==> at[i] <= at[j]
  }

  ghost predicate IfsAre(ts: seq<Token>, at: seq<nat>, ifs: seq<nat>, o: seq<nat>) {
    |ifs| == |o| && forall i :: 0 <= i < |o| ==> IfEntry(ts, at, ifs[i], o[i])
  }

  ghost predicate DoEntry(at: seq<nat>, x: nat, k: nat) { k < |at| && x == at[k] % 65536 }

  ghost predicate DosAre(at: seq<nat>, dos: seq<nat>, o: seq<nat>) {
    |dos| == |o| && forall i :: 0 <= i < |o| ==> DoEntry(at, dos[i], o[i])
  }

  ghost predicate Stacks(ts: seq<Token>, at: seq<nat>, s: State) {
    IfsAre(ts, at, s.ifs, OpenIfs(ts)) && DosAre(at, s.dos, OpenDos(ts))
  }

  ghost predicate Jumps(base: nat, ts: seq<Token>, at: seq<nat>, code: seq<byte>)
    requires |at| == |ts| + 1
  {
    forall k :: 0 <= k < |ts| ==> Opened(ts, at, code, k) && Closed(base, ts, at, code, k) && Looped(base, ts, at, code, k)
  }

  ghost predicate Inv(header: seq<byte>, ts: seq<Token>, at: seq<nat>, s: State) {
    Placed(header, ts, at, s) && Stacks(ts, at, s) && Jumps(|header|, ts, at, s.code)
  }

  /** The code has grown, and changed at most in [lo, hi). */
  ghost predicate SameBut(code: seq<byte>, code1: seq<byte>, lo: int, hi: int) {
    |code| <= |code1| && forall k :: 0 <= k < |code| && !(lo <= k < hi) ==> code1[k] == code[k]
  }

  lemma JumpStays(code: seq<byte>, code1: seq<byte>, lo: int, hi: int, base: nat, from: nat, to: nat, test: Test,
                  long: bool,
                  dest: int)
    requires SameBut(code, code1, lo, hi) && (to <= lo || hi <= from || lo >= hi)
    ensures HeadAt(code, from, to, test, long) ==> HeadAt(code1, from, to, test, long)
    ensures JumpsTo(code, base, from, to, test, long, dest) ==> JumpsTo(code1, base, from, to, test, long, dest)
    ensures HeadAt(code, from, to, test, long) && Unset(code, to, long) ==> Unset(code1, to, long)
  {
    if HeadAt(code, from, to, test, long) {
      assert code1[from..to - Operands(long)] == code[from..to - Operands(long)];
    }
  }

  lemma BackStays(code: seq<byte>, code1: seq<byte>, lo: int, hi: int, base: nat, from: nat, to: nat, test: Test,
                  dest: int)
    requires SameBut(code, code1, lo, hi) && (to <= lo || hi <= from || lo >= hi) && LoopsTo(code, base, from, to, test, dest)
    ensures LoopsTo(code1, base, from, to, test, dest)
  {
    if dest < 65536 {
      JumpStays(code, code1, lo, hi, base, from, to, test, false, dest);
      JumpStays(code, code1, lo, hi, base, from, to, test, true, dest);
    } else {
      assert code1[from..to] == code[from..to];
    }
  }

  /** Changing only the operand of an open jump. */
  lemma HeadStays(code: seq<byte>, code1: seq<byte>, from: nat, to: nat, test: Test, long: bool)
    requires HeadAt(code, from, to, test, long) && SameBut(code, code1, to - Operands(long), to)
    ensures HeadAt(code1, from, to, test, long)
  {
    assert code1[from..to - Operands(long)] == code[from..to - Operands(long)];
  }

  /** When the code only grows, or changes in front of all jumps, they stay. */
  lemma JumpsStay(base: nat, ts: seq<Token>, at: seq<nat>, code: seq<byte>, code1: seq<byte>, hi: nat)
    requires |at| == |ts| + 1 && Jumps(base, ts, at, code) && SameBut(code, code1, 0, hi)
    requires forall k :: 0 <= k <= |ts| ==> hi <= at[k]
    ensures Jumps(base, ts, at, code1)
  {
    forall k | 0 <= k < |ts|
      ensures Opened(ts, at, code1, k) && Closed(base, ts, at, code1, k) && Looped(base, ts, at, code1, k)
    {
      assert Opened(ts, at, code, k) && Closed(base, ts, at, code, k) && Looped(base, ts, at, code, k);
      OneStays(base, ts, at, code, code1, k, 0, hi);
    }
  }

  lemma OpenedStays(ts: seq<Token>, at: seq<nat>, code: seq<byte>, code1: seq<byte>, k: nat, lo: int, hi: int)
    requires k < |ts| && |at| == |ts| + 1 && SameBut(code, code1, lo, hi) && Opened(ts, at, code, k)
    requires at[k + 1] <= lo || hi <= at[k] || lo >= hi
    ensures Opened(ts, at, code1, k)
  {
    if Opens(ts[k]) {
      JumpStays(code, code1, lo, hi, 0, at[k], at[k + 1], TestOf(ts[k]), ts[k].long, 0);
    }
  }

  lemma ClosedToStays(base: nat, ts: seq<Token>, at: seq<nat>, code: seq<byte>, code1: seq<byte>, o: nat, dest: nat,
                      lo: int, hi: int)
    requires o < |ts| && |at| == |ts| + 1 && Opens(ts[o]) && SameBut(code, code1, lo, hi)
    requires ClosedTo(base, ts, at, code, o, dest)
    requires at[o + 1] <= lo || hi <= at[o] || lo >= hi
    ensures ClosedTo(base, ts, at, code1, o, dest)
  {
    JumpStays(code, code1, lo, hi, base, at[o], at[o + 1], TestOf(ts[o]), ts[o].long, dest);
  }

  lemma ClosedStays(base: nat, ts: seq<Token>, at: seq<nat>, code: seq<byte>, code1: seq<byte>, k: nat, lo: int,
                    hi: int)
    requires k < |ts| && |at| == |ts| + 1 && SameBut(code, code1, lo, hi) && Closed(base, ts, at, code, k)
    requires
      Closes(ts[k]) ==> var t := Last(OpenIfs(ts[..k])); at[t + 1] <= lo || hi <= at[t] || lo >= hi
    ensures Closed(base, ts, at, code1, k)
  {
    if Closes(ts[k]) {
      ClosedToStays(base, ts, at, code, code1, Last(OpenIfs(ts[..k])), DestOf(at, ts, k), lo, hi);
    }
  }

  lemma LoopedStays(base: nat, ts: seq<Token>, at: seq<nat>, code: seq<byte>, code1: seq<byte>, k: nat, lo: int,
                    hi: int)
    requires k < |ts| && |at| == |ts| + 1 && SameBut(code, code1, lo, hi) && Looped(base, ts, at, code, k)
    requires at[k + 1] <= lo || hi <= at[k] || lo >= hi
    ensures Looped(base, ts, at, code1, k)
  {
    if ts[k].Loop? {
      BackStays(code, code1, lo, hi, base, at[k], at[k + 1], ts[k].test, at[Last(OpenDos(ts[..k]))]);
    }
  }

  /** What token k has to do with, where the change keeps away from it. */
  lemma OneStays(base: nat, ts: seq<Token>, at: seq<nat>, code: seq<byte>, code1: seq<byte>, k: nat, lo: int, hi: int)
    requires k < |ts| && |at| == |ts| + 1 && SameBut(code, code1, lo, hi)
    requires Opened(ts, at, code, k) && Closed(base, ts, at, code, k) && Looped(base, ts, at, code, k)
    requires at[k + 1] <= lo || hi <= at[k] || lo >= hi
    requires
      Closes(ts[k]) ==> var t := Last(OpenIfs(ts[..k])); at[t + 1] <= lo || hi <= at[t] || lo >= hi
    ensures Opened(ts, at, code1, k) && Closed(base, ts, at, code1, k) && Looped(base, ts, at, code1, k)
  {
    OpenedStays(ts, at, code, code1, k, lo, hi);
    ClosedStays(base, ts, at, code, code1, k, lo, hi);
    LoopedStays(base, ts, at, code, code1, k, lo, hi);
  }

  /** Setting the operand of the innermost open jump changes nothing for the others. */
  lemma JumpsStayClosed(header: seq<byte>, ts: seq<Token>, at: seq<nat>, s: State, code1: seq<byte>)
    requires Inv(header, ts, at, s) && OpenIfs(ts) != [] && OperandOf(ts, at, Last(OpenIfs(ts))) < 65536
    requires var t := Last(OpenIfs(ts)); SameBut(s.code, code1, at[t + 1] - Operands(ts[t].long), at[t + 1])
    ensures Jumps(|header|, ts, at, code1)
  {
    var base, t := |header|, Last(OpenIfs(ts));
    assert Opened(ts, at, s.code, t);
    var lo, hi := at[t + 1] - Operands(ts[t].long), at[t + 1];
    forall k | 0 <= k < |ts|
      ensures Opened(ts, at, code1, k) && Closed(base, ts, at, code1, k) && Looped(base, ts, at, code1, k)
    {
      assert Opened(ts, at, s.code, k) && Closed(base, ts, at, s.code, k) && Looped(base, ts, at, s.code, k);
      if k != t {
        OneStays(base, ts, at, s.code, code1, k, lo, hi);
      } else {
        HeadStays(s.code, code1, at[t], at[t + 1], TestOf(ts[t]), ts[t].long);
        ClosedStays(base, ts, at, s.code, code1, t, lo, hi);
      }
    }
  }

  /** The opcode in front of an operand tells whether it is long. */
  lemma HeadEnds(code: seq<byte>, from: nat, to: nat, test: Test, long: bool)
    requires HeadAt(code, from, to, test, long)
    ensures to - Operands(long) > from && (code[to - Operands(long) - 1] == LJ <==> long)
  {
    var h, a := Head(test, long), to - Operands(long);
    assert code[a - 1] == code[from..a][|h| - 1] == h[|h| - 1];
  }

  lemma OperandSet(s: State, base: nat, from: nat, to: nat, test: Test, long: bool, dest: nat, s1: State)
    requires HeadAt(s.code, from, to, test, long) && s.ifs != [] && Last(s.ifs) == to - Operands(long)
    requires Close(s, base, dest) == Ok(s1) && |s.code| <= dest < base + 65536
    ensures SameBut(s.code, s1.code, to - Operands(long), to) && JumpsTo(s1.code, base, from, to, test, long, dest)
  {
    HeadEnds(s.code, from, to, test, long);
    HeadStays(s.code, s1.code, from, to, test, long);
  }

  lemma Closing(s: State, base: nat, dest: nat, s1: State)
    requires Close(s, base, dest) == Ok(s1)
    ensures s.ifs != [] && |s1.code| == |s.code| && s1.dos == s.dos && s1.ifs == s.ifs[..|s.ifs| - 1]
    ensures SameBut(s.code, s1.code, Last(s.ifs), Last(s.ifs) + 2)
  {
  }

  /** A 16-bit address that has lost its high bit points into the header. */
  lemma EntryIs(n: nat, base: nat, a: nat)
    requires n <= LIMIT && base >= FRONT && a == n % 65536
    ensures if n < 65536 then a == n else a == n - 65536 && a + 2 <= base
  {
  }

  /** The jump that is closed next. */
  lemma TopEntry(header: seq<byte>, ts: seq<Token>, at: seq<nat>, s: State) returns (t: nat)
    requires Inv(header, ts, at, s) && s.ifs != [] && |s.code| <= LIMIT && |header| >= FRONT
    ensures OpenIfs(ts) != [] && t == Last(OpenIfs(ts)) && Opened(ts, at, s.code, t)
    ensures
      var a := OperandOf(ts, at, t);
      if a < 65536 then Last(s.ifs) == a else Last(s.ifs) == a - 65536 && Last(s.ifs) + 2 <= |header| && |s.code| > 65536
  {
    t := Last(OpenIfs(ts));
    assert IfEntry(ts, at, Last(s.ifs), t) && Opened(ts, at, s.code, t);
    EntryIs(OperandOf(ts, at, t), |header|, Last(s.ifs));
  }

  lemma EarlyClose(header: seq<byte>, ts: seq<Token>, at: seq<nat>, s: State, t: nat, dest: nat, s1: State)
    requires Inv(header, ts, at, s) && OpenIfs(ts) != [] && t == Last(OpenIfs(ts)) && Opened(ts, at, s.code, t)
    requires s.ifs != [] && Last(s.ifs) == OperandOf(ts, at, t) < 65536
    requires Close(s, |header|, dest) == Ok(s1) && |s.code| <= dest < |header| + 65536
    ensures Jumps(|header|, ts, at, s1.code) && ClosedTo(|header|, ts, at, s1.code, t, dest)
  {
    OperandSet(s, |header|, at[t], at[t + 1], TestOf(ts[t]), ts[t].long, dest, s1);
    JumpsStayClosed(header, ts, at, s, s1.code);
  }

  lemma LateClose(header: seq<byte>, ts: seq<Token>, at: seq<nat>, s: State, t: nat, dest: nat, s1: State)
    requires Inv(header, ts, at, s) && OpenIfs(ts) != [] && t == Last(OpenIfs(ts)) && OperandOf(ts, at, t) >= 65536
    requires s.ifs != [] && Last(s.ifs) + 2 <= |header| && SameBut(s.code, s1.code, Last(s.ifs), Last(s.ifs) + 2)
    ensures Jumps(|header|, ts, at, s1.code) && ClosedTo(|header|, ts, at, s1.code, t, dest)
  {
    JumpsStay(|header|, ts, at, s.code, s1.code, |header|);
  }

  /** The jump to be closed leads to dest, or its operand is not found: then nothing behind the header changes. */
  lemma CloseLands(header: seq<byte>, ts: seq<Token>, at: seq<nat>, s: State, dest: nat, s1: State)
    requires Inv(header, ts, at, s) && Close(s, |header|, dest) == Ok(s1) && |s.code| <= dest <= LIMIT
    requires |header| >= FRONT
    ensures |s1.code| == |s.code| && s1.dos == s.dos && OpenIfs(ts) != [] && s1.ifs == s.ifs[..|s.ifs| - 1]
    ensures Jumps(|header|, ts, at, s1.code) && ClosedTo(|header|, ts, at, s1.code, Last(OpenIfs(ts)), dest)
  {
    Closing(s, |header|, dest, s1);
    var t := TopEntry(header, ts, at, s);
    if OperandOf(ts, at, t) < 65536 {
      EarlyClose(header, ts, at, s, t, dest, s1);
    } else {
      LateClose(header, ts, at, s, t, dest, s1);
    }
  }

  // ---------------------------------------------------------------- one token more

  /** The ifs that are still open in front of a token that opens one. */
  function Inner(ts: seq<Token>, t: Token): seq<nat> {
    var o := OpenIfs(ts);
    if Closes(t) && o != [] then o[..|o| - 1] else o
  }

  lemma OpenedBy(ts: seq<Token>, t: Token)
    ensures OpenIfs(ts + [t]) == if Opens(t) then Inner(ts, t) + [|ts|] else Inner(ts, t)
  {
    assert (ts + [t])[..|ts|] == ts;
  }

  lemma DosOpenedBy(ts: seq<Token>, t: Token)
    ensures
      var o := OpenDos(ts);
      OpenDos(ts + [t]) == if t.Do? then o + [|ts|] else if t.Loop? && o != [] then o[..|o| - 1] else o
  {
    assert (ts + [t])[..|ts|] == ts;
  }

  /** What has been closed is not opened by a later token. */
  lemma NotOpenAgain(ts: seq<Token>, t: Token, k: nat)
    requires k < |ts| && k !in OpenIfs(ts)
    ensures k !in OpenIfs(ts + [t])
  {
    OpenedBy(ts, t);
    InnerIsPrefix(ts, t);
    NotAmong(OpenIfs(ts), Inner(ts, t), |ts|, k);
  }

  lemma InnerIsPrefix(ts: seq<Token>, t: Token)
    ensures Inner(ts, t) <= OpenIfs(ts)
  {
  }

  lemma NotAmong(o: seq<nat>, inner: seq<nat>, n: nat, k: nat)
    requires k !in o && k != n && inner <= o
    ensures k !in inner && k !in inner + [n]
  {
  }

  lemma OldOne(base: nat, ts: seq<Token>, at: seq<nat>, code1: seq<byte>, t: Token, k: nat)
    requires |at| == |ts| + 1 && k < |ts| && Jumps(base, ts, at, code1)
    ensures
      var ts1, at1 := ts + [t], at + [|code1|];
      Opened(ts1, at1, code1, k) && Closed(base, ts1, at1, code1, k) && Looped(base, ts1, at1, code1, k)
  {
    assert Opened(ts, at, code1, k) && Closed(base, ts, at, code1, k) && Looped(base, ts, at, code1, k);
    var ts1 := ts + [t];
    assert ts1[..k] == ts[..k] && ts1[k] == ts[k];
    if Closes(ts[k]) {
      NotOpenAgain(ts, t, Last(OpenIfs(ts[..k])));
    }
  }

  /** All tokens but the new one are as they were. */
  lemma OneMore(base: nat, ts: seq<Token>, at: seq<nat>, code1: seq<byte>, t: Token)
    requires |at| == |ts| + 1 && Jumps(base, ts, at, code1)
    requires
      var ts1, at1 := ts + [t], at + [|code1|];
      Opened(ts1, at1, code1, |ts|) && Closed(base, ts1, at1, code1, |ts|) && Looped(base, ts1, at1, code1, |ts|)
    ensures Jumps(base, ts + [t], at + [|code1|], code1)
  {
    var ts1, at1 := ts + [t], at + [|code1|];
    forall k | 0 <= k < |ts1|
      ensures Opened(ts1, at1, code1, k) && Closed(base, ts1, at1, code1, k) && Looped(base, ts1, at1, code1, k)
    {
      if k < |ts| {
        OldOne(base, ts, at, code1, t, k);
      }
    }
  }

  lemma PlacedMore(header: seq<byte>, ts: seq<Token>, at: seq<nat>, s0: State, t: Token, s1: State)
    requires Placed(header, ts, at, s0) && |s1.code| >= |s0.code|
    ensures Placed(header, ts + [t], at + [|s1.code|], s1)
  {
  }

  lemma OpenJumpIs(s0: State, from: nat, test: Test, long: bool, s1: State)
    requires OpenJump(s0, test, long) == Ok(s1) && from == |s0.code|
    ensures |s1.code| > Operands(long) && s1.ifs == s0.ifs + [(|s1.code| - Operands(long)) % 65536] && s1.dos == s0.dos
    ensures HeadAt(s1.code, from, |s1.code|, test, long) && Unset(s1.code, |s1.code|, long)
    ensures SameBut(s0.code, s1.code, 0, 0)
  {
    var operand := if long then [0, 0] else [0];
    MiddleIs(s0.code, Head(test, long), operand, s1.code);
    LastOnes(operand, s1.code, |s1.code| - Operands(long));
  }

  lemma LastOnes(b: seq<byte>, s: seq<byte>, n: nat)
    requires n <= |s| && s[n..] == b
    ensures forall k :: 0 <= k < |b| ==> s[n + k] == b[k]
  {
    assert forall k :: 0 <= k < |b| ==> s[n..][k] == s[n + k];
  }

  lemma MiddleIs(a: seq<byte>, b: seq<byte>, c: seq<byte>, s: seq<byte>)
    requires s == a + b + c
    ensures |s| == |a| + |b| + |c| && s[|a|..|s| - |c|] == b && s[|s| - |c|..] == c
    ensures SameBut(a, s, 0, 0)
  {
  }

  /** The entries of the open ifs, the new one among them. */
  lemma EntriesMore(ts: seq<Token>, at: seq<nat>, ifs: seq<nat>, o: seq<nat>, t: Token, n1: nat)
    requires |at| == |ts| + 1 && IfsAre(ts, at, ifs, o) && Opens(t) && n1 >= Operands(t.long)
    ensures IfsAre(ts + [t], at + [n1], ifs + [(n1 - Operands(t.long)) % 65536], o + [|ts|])
  {
    var ifs1, o1 := ifs + [(n1 - Operands(t.long)) % 65536], o + [|ts|];
    forall i | 0 <= i < |o1|
      ensures IfEntry(ts + [t], at + [n1], ifs1[i], o1[i])
    {
      assert i < |o| ==> IfEntry(ts, at, ifs[i], o[i]);
    }
  }

  /** A token that opens no if leaves the entries. */
  lemma EntriesStay(ts: seq<Token>, at: seq<nat>, ifs: seq<nat>, o: seq<nat>, t: Token, n1: nat)
    requires |at| == |ts| + 1 && IfsAre(ts, at, ifs, o)
    ensures IfsAre(ts + [t], at + [n1], ifs, o)
  {
    forall i | 0 <= i < |o|
      ensures IfEntry(ts + [t], at + [n1], ifs[i], o[i])
    {
      assert IfEntry(ts, at, ifs[i], o[i]);
    }
  }

  lemma DosStay(at: seq<nat>, dos: seq<nat>, o: seq<nat>, n1: nat)
    requires DosAre(at, dos, o)
    ensures DosAre(at + [n1], dos, o)
  {
    forall i | 0 <= i < |o|
      ensures DoEntry(at + [n1], dos[i], o[i])
    {
      assert DoEntry(at, dos[i], o[i]);
    }
  }

  lemma DosMore(at: seq<nat>, dos: seq<nat>, o: seq<nat>, k: nat, n1: nat)
    requires DosAre(at, dos, o) && k < |at|
    ensures DosAre(at + [n1], dos + [at[k] % 65536], o + [k])
  {
    var dos1, o1 := dos + [at[k] % 65536], o + [k];
    forall i | 0 <= i < |o1|
      ensures DoEntry(at + [n1], dos1[i], o1[i])
    {
      assert i < |o| ==> DoEntry(at, dos[i], o[i]);
    }
  }

  lemma DosLess(at: seq<nat>, dos: seq<nat>, o: seq<nat>)
    requires DosAre(at, dos, o) && o != []
    ensures DosAre(at, dos[..|dos| - 1], o[..|o| - 1]) && DoEntry(at, Last(dos), Last(o))
  {
    var dos1, o1 := dos[..|dos| - 1], o[..|o| - 1];
    forall i | 0 <= i < |o1|
      ensures DoEntry(at, dos1[i], o1[i])
    {
      assert DoEntry(at, dos[i], o[i]);
    }
    assert DoEntry(at, dos[|o| - 1], o[|o| - 1]);
  }

  /** The stacks as they are when the jump of t is pushed. */
  ghost predicate Ready(ts: seq<Token>, at: seq<nat>, s0: State, t: Token) {
    IfsAre(ts, at, s0.ifs, Inner(ts, t)) && DosAre(at, s0.dos, OpenDos(ts))
  }

  lemma StepOpen(header: seq<byte>, ts: seq<Token>, at: seq<nat>, s0: State, t: Token, s1: State)
    requires Opens(t) && OpenJump(s0, TestOf(t), t.long) == Ok(s1)
    requires Placed(header, ts, at, s0) && Ready(ts, at, s0, t) && Jumps(|header|, ts, at, s0.code)
    requires Closes(t) ==> OpenIfs(ts) != [] && ClosedTo(|header|, ts, at, s0.code, Last(OpenIfs(ts)), |s1.code|)
    ensures Inv(header, ts + [t], at + [|s1.code|], s1)
  {
    OpenJumpIs(s0, at[|ts|], TestOf(t), t.long, s1);
    PlacedMore(header, ts, at, s0, t, s1);
    StacksOpened(ts, at, s0, t, s1);
    OpenedMore(|header|, ts, at, t, s0.code, s1.code);
  }

  lemma StacksOpened(ts: seq<Token>, at: seq<nat>, s0: State, t: Token, s1: State)
    requires Opens(t) && |at| == |ts| + 1 && |s1.code| >= Operands(t.long)
    requires Ready(ts, at, s0, t)
    requires s1.ifs == s0.ifs + [(|s1.code| - Operands(t.long)) % 65536] && s1.dos == s0.dos
    ensures Stacks(ts + [t], at + [|s1.code|], s1)
  {
    var o, d := Inner(ts, t), OpenDos(ts);
    OpenedBy(ts, t);
    DosOpenedBy(ts, t);
    EntriesMore(ts, at, s0.ifs, o, t, |s1.code|);
    DosStay(at, s0.dos, d, |s1.code|);
    StacksAre(ts + [t], at + [|s1.code|], s1, o + [|ts|], d);
  }

  lemma StacksAre(ts: seq<Token>, at: seq<nat>, s: State, o: seq<nat>, d: seq<nat>)
    requires OpenIfs(ts) == o && OpenDos(ts) == d && IfsAre(ts, at, s.ifs, o) && DosAre(at, s.dos, d)
    ensures Stacks(ts, at, s)
  {
  }

  lemma NewOpened(ts: seq<Token>, at: seq<nat>, t: Token, code1: seq<byte>)
    requires Opens(t) && |at| == |ts| + 1
    requires HeadAt(code1, at[|ts|], |code1|, TestOf(t), t.long) && Unset(code1, |code1|, t.long)
    ensures Opened(ts + [t], at + [|code1|], code1, |ts|)
  {
  }

  lemma NewClosed(base: nat, ts: seq<Token>, at: seq<nat>, t: Token, code1: seq<byte>)
    requires |at| == |ts| + 1 && (t.Endif? ==> at[|ts|] == |code1|)
    requires Closes(t) ==> OpenIfs(ts) != [] && ClosedTo(base, ts, at, code1, Last(OpenIfs(ts)), |code1|)
    ensures Closed(base, ts + [t], at + [|code1|], code1, |ts|)
  {
    if Closes(t) {
      var ts1, o := ts + [t], Last(OpenIfs(ts));
      assert ts1[..|ts|] == ts && ts1[o] == ts[o];
      OpenedBy(ts, t);
      LastIsGone(ts, t);
    }
  }

  lemma LastIsGone(ts: seq<Token>, t: Token)
    requires Closes(t) && OpenIfs(ts) != []
    ensures Last(OpenIfs(ts)) !in Inner(ts, t) && Last(OpenIfs(ts)) < |ts|
  {
    IfsRise(ts);
  }

  /** The jumps with a new one that is open. */
  lemma OpenedMore(base: nat, ts: seq<Token>, at: seq<nat>, t: Token, code: seq<byte>, code1: seq<byte>)
    requires Opens(t) && |at| == |ts| + 1 && Jumps(base, ts, at, code) && SameBut(code, code1, 0, 0)
    requires HeadAt(code1, at[|ts|], |code1|, TestOf(t), t.long) && Unset(code1, |code1|, t.long)
    requires Closes(t) ==> OpenIfs(ts) != [] && ClosedTo(base, ts, at, code, Last(OpenIfs(ts)), |code1|)
    ensures Jumps(base, ts + [t], at + [|code1|], code1)
  {
    JumpsStay(base, ts, at, code, code1, 0);
    if Closes(t) {
      ClosedToStays(base, ts, at, code, code1, Last(OpenIfs(ts)), |code1|, 0, 0);
    }
    NewOpened(ts, at, t, code1);
    NewClosed(base, ts, at, t, code1);
    OneMore(base, ts, at, code1, t);
  }

  lemma NoJumpMore(base: nat, ts: seq<Token>, at: seq<nat>, code1: seq<byte>, t: Token)
    requires (t.Plain? || t.Do?) && |at| == |ts| + 1 && Jumps(base, ts, at, code1)
    ensures Jumps(base, ts + [t], at + [|code1|], code1)
  {
    OneMore(base, ts, at, code1, t);
  }

  lemma PlainStacks(ts: seq<Token>, at: seq<nat>, s: State, t: Token, s1: State)
    requires (t.Plain? || t.Do?) && |at| == |ts| + 1 && Stacks(ts, at, s) && at[|ts|] == |s.code|
    requires s1.ifs == s.ifs && s1.dos == if t.Do? then s.dos + [|s.code| % 65536] else s.dos
    ensures Stacks(ts + [t], at + [|s1.code|], s1)
  {
    OpenedBy(ts, t);
    DosOpenedBy(ts, t);
    EntriesStay(ts, at, s.ifs, OpenIfs(ts), t, |s1.code|);
    if t.Do? {
      DosMore(at, s.dos, OpenDos(ts), |ts|, |s1.code|);
    } else {
      DosStay(at, s.dos, OpenDos(ts), |s1.code|);
    }
  }

  lemma StepPlain(header: seq<byte>, ts: seq<Token>, at: seq<nat>, s: State, t: Token, s1: State)
    requires Inv(header, ts, at, s) && (t.Plain? || t.Do?) && Compiled(s, |header|, t) == Ok(s1)
    ensures Inv(header, ts + [t], at + [|s1.code|], s1)
  {
    PlacedMore(header, ts, at, s, t, s1);
    PlainStacks(ts, at, s, t, s1);
    JumpsStay(|header|, ts, at, s.code, s1.code, 0);
    NoJumpMore(|header|, ts, at, s1.code, t);
  }

  lemma StepIf(header: seq<byte>, ts: seq<Token>, at: seq<nat>, s: State, t: Token, s1: State)
    requires Inv(header, ts, at, s) && t.If? && Compiled(s, |header|, t) == Ok(s1)
    ensures Inv(header, ts + [t], at + [|s1.code|], s1)
  {
    StepOpen(header, ts, at, s, t, s1);
  }

  /** The stack without its innermost entry. */
  lemma PoppedEntries(ts: seq<Token>, at: seq<nat>, s: State)
    requires Stacks(ts, at, s) && OpenIfs(ts) != []
    ensures var o := OpenIfs(ts); IfsAre(ts, at, s.ifs[..|s.ifs| - 1], o[..|o| - 1])
  {
    var o, ifs := OpenIfs(ts), s.ifs[..|s.ifs| - 1];
    forall i | 0 <= i < |ifs|
      ensures IfEntry(ts, at, ifs[i], o[..|o| - 1][i])
    {
      assert IfEntry(ts, at, s.ifs[i], o[i]);
    }
  }

  /** An else closes one jump and opens another. */
  lemma ElseParts(s: State, base: nat, t: Token, s1: State) returns (s0: State)
    requires t.Else? && Compiled(s, base, t) == Ok(s1)
    ensures Close(s, base, |s1.code|) == Ok(s0) && OpenJump(s0, Always, t.long) == Ok(s1) && |s.code| <= |s1.code|
  {
    s0 := Close(s, base, |s.code| + 2 + if t.long then 1 else 0).value;
  }

  lemma StepElse(header: seq<byte>, ts: seq<Token>, at: seq<nat>, s: State, t: Token, s0: State, s1: State)
    requires Inv(header, ts, at, s) && t.Else? && |s.code| <= |s1.code| <= LIMIT && |header| >= FRONT
    requires Close(s, |header|, |s1.code|) == Ok(s0) && OpenJump(s0, Always, t.long) == Ok(s1)
    ensures Inv(header, ts + [t], at + [|s1.code|], s1)
  {
    CloseLands(header, ts, at, s, |s1.code|, s0);
    PoppedEntries(ts, at, s);
    StepOpen(header, ts, at, s0, t, s1);
  }

  lemma EndifStacks(ts: seq<Token>, at: seq<nat>, s: State, s1: State)
    requires |at| == |ts| + 1 && Stacks(ts, at, s) && OpenIfs(ts) != []
    requires s1.ifs == s.ifs[..|s.ifs| - 1] && s1.dos == s.dos
    ensures Stacks(ts + [Endif], at + [|s1.code|], s1)
  {
    PoppedEntries(ts, at, s);
    OpenedBy(ts, Endif);
    DosOpenedBy(ts, Endif);
    EntriesStay(ts, at, s1.ifs, Inner(ts, Endif), Endif, |s1.code|);
    DosStay(at, s1.dos, OpenDos(ts), |s1.code|);
  }

  lemma StepEndif(header: seq<byte>, ts: seq<Token>, at: seq<nat>, s: State, s1: State)
    requires Inv(header, ts, at, s) && Compiled(s, |header|, Endif) == Ok(s1) && |s1.code| <= LIMIT && |header| >= FRONT
    ensures Inv(header, ts + [Endif], at + [|s1.code|], s1)
  {
    CloseLands(header, ts, at, s, |s.code|, s1);
    PlacedMore(header, ts, at, s, Endif, s1);
    NewClosed(|header|, ts, at, Endif, s1.code);
    OneMore(|header|, ts, at, s1.code, Endif);
    EndifStacks(ts, at, s, s1);
  }

  lemma ShortBack(code: seq<byte>, base: nat, test: Test, a: nat, code1: seq<byte>)
    requires a <= |code| && a - |code| - 2 >= -127 && code1 == code + Head(test, false) + [(a - |code| - 2) % 256]
    ensures JumpsTo(code1, base, |code|, |code1|, test, false, a) && SameBut(code, code1, 0, 0)
  {
    MiddleIs(code, Head(test, false), [(a - |code| - 2) % 256], code1);
  }

  lemma LongBack(code: seq<byte>, base: nat, test: Test, to: nat, code1: seq<byte>)
    requires to < 65536 && code1 == code + Head(test, true) + [to % 256] + [to / 256 % 256]
    ensures JumpsTo(code1, base, |code|, |code1|, test, true, base + to) && SameBut(code, code1, 0, 0)
  {
    UpperByte(to);
    LongJump(code, base, test, to % 256, to / 256, base + to, code1);
  }

  lemma UpperByte(to: nat)
    requires to < 65536
    ensures to / 256 < 256 && to / 256 % 256 == to / 256
  {
  }

  lemma LongJump(code: seq<byte>, base: nat, test: Test, lo: byte, hi: byte, dest: nat, code1: seq<byte>)
    requires code1 == code + Head(test, true) + [lo] + [hi]
    requires 0 <= dest - base < 65536 && (dest - base) % 256 == lo && (dest - base) / 256 == hi
    ensures JumpsTo(code1, base, |code|, |code1|, test, true, dest) && SameBut(code, code1, 0, 0)
  {
    assert code1 == code + Head(test, true) + [lo, hi];
    MiddleIs(code, Head(test, true), [lo, hi], code1);
    LastOnes([lo, hi], code1, |code1| - 2);
  }

  lemma EarlyBack(s: State, base: nat, test: Test, a: nat, s1: State)
    requires s.dos != [] && Last(s.dos) == a && base <= a < base + 65536 && a <= |s.code|
    requires JumpBack(s, base, test) == Ok(s1)
    ensures JumpsBack(s1.code, base, |s.code|, |s1.code|, test, a) && SameBut(s.code, s1.code, 0, 0)
  {
    if a - |s.code| - 2 >= -127 {
      ShortBack(s.code, base, test, a, s1.code);
    } else {
      LongBack(s.code, base, test, a - base, s1.code);
    }
  }

  /** From an address in the header the distance is too long for a short jump, and negative for a long one. */
  lemma LateBack(s: State, base: nat, test: Test, dest: nat, a: nat, s1: State)
    requires s.dos != [] && Last(s.dos) == a == dest - 65536 && a < base && dest <= |s.code|
    requires JumpBack(s, base, test) == Ok(s1)
    ensures CutBack(s1.code, base, |s.code|, |s1.code|, test, dest) && SameBut(s.code, s1.code, 0, 0)
  {
    SameLowByte(dest, a, base);
    assert s1.code == s.code + Head(test, true) + [(dest - base) % 256];
    MiddleIs(s.code, Head(test, true) + [(dest - base) % 256], [], s1.code);
  }

  lemma SameLowByte(dest: int, a: int, base: int)
    requires a == dest - 65536
    ensures (a - base) % 256 == (dest - base) % 256
  {
  }

  lemma LoopBack(s: State, base: nat, test: Test, dest: nat, s1: State)
    requires s.dos != [] && Last(s.dos) == dest % 65536 && FRONT <= base <= dest <= |s.code| <= LIMIT
    requires JumpBack(s, base, test) == Ok(s1)
    ensures LoopsTo(s1.code, base, |s.code|, |s1.code|, test, dest) && SameBut(s.code, s1.code, 0, 0)
  {
    if dest < 65536 {
      EarlyBack(s, base, test, dest, s1);
    } else {
      EntryIs(dest, base, Last(s.dos));
      LateBack(s, base, test, dest, Last(s.dos), s1);
    }
  }

  lemma LoopStacks(s: State, base: nat, test: Test, s1: State)
    requires JumpBack(s, base, test) == Ok(s1)
    ensures s.dos != [] && s1.ifs == s.ifs && s1.dos == s.dos[..|s.dos| - 1]
  {
  }

  lemma NewLooped(base: nat, ts: seq<Token>, at: seq<nat>, t: Token, code1: seq<byte>)
    requires t.Loop? && |at| == |ts| + 1 && OpenDos(ts) != []
    requires LoopsTo(code1, base, at[|ts|], |code1|, t.test, at[Last(OpenDos(ts))])
    ensures Looped(base, ts + [t], at + [|code1|], code1, |ts|)
  {
    assert (ts + [t])[..|ts|] == ts;
  }

  lemma LoopedStacks(ts: seq<Token>, at: seq<nat>, s: State, t: Token, s1: State)
    requires t.Loop? && |at| == |ts| + 1 && Stacks(ts, at, s) && OpenDos(ts) != []
    requires s1.ifs == s.ifs && s1.dos == s.dos[..|s.dos| - 1]
    ensures Stacks(ts + [t], at + [|s1.code|], s1)
  {
    OpenedBy(ts, t);
    DosOpenedBy(ts, t);
    var o := OpenDos(ts);
    DosLess(at, s.dos, o);
    DosStay(at, s1.dos, o[..|o| - 1], |s1.code|);
    EntriesStay(ts, at, s.ifs, OpenIfs(ts), t, |s1.code|);
  }

  lemma StepLoop(header: seq<byte>, ts: seq<Token>, at: seq<nat>, s: State, t: Token, s1: State)
    requires Inv(header, ts, at, s) && t.Loop? && Compiled(s, |header|, t) == Ok(s1)
    requires |s.code| <= |s1.code| <= LIMIT && |header| >= FRONT
    ensures Inv(header, ts + [t], at + [|s1.code|], s1)
  {
    LoopStacks(s, |header|, t.test, s1);
    DosLess(at, s.dos, OpenDos(ts));
    LoopBack(s, |header|, t.test, at[Last(OpenDos(ts))], s1);
    PlacedMore(header, ts, at, s, t, s1);
    JumpsStay(|header|, ts, at, s.code, s1.code, 0);
    NewLooped(|header|, ts, at, t, s1.code);
    OneMore(|header|, ts, at, s1.code, t);
    LoopedStacks(ts, at, s, t, s1);
  }

  lemma StepKeeps(header: seq<byte>, ts: seq<Token>, at: seq<nat>, s: State, t: Token, s1: State)
    requires Inv(header, ts, at, s) && Compiled(s, |header|, t) == Ok(s1)
    requires |s.code| <= |s1.code| <= LIMIT && |header| >= FRONT
    ensures Inv(header, ts + [t], at + [|s1.code|], s1)
  {
    match t {
      case Plain(_) => StepPlain(header, ts, at, s, t, s1);
      case If(_, _) => StepIf(header, ts, at, s, t, s1);
      case Else(_) =>
        var s0 := ElseParts(s, |header|, t, s1);
        StepElse(header, ts, at, s, t, s0, s1);
      case Endif => StepEndif(header, ts, at, s, s1);
      case Do => StepPlain(header, ts, at, s, t, s1);
      case Loop(_) => StepLoop(header, ts, at, s, t, s1);
    }
  }

  // ---------------------------------------------------------------- whole programs

  lemma CodeGrows(s: State, base: nat, t: Token)
    requires Compiled(s, base, t).Ok?
    ensures |Compiled(s, base, t).value.code| >= |s.code|
  {
  }

  /** The addresses of all tokens, and the jumps among them, once a program has been compiled. */
  lemma {:induction false} RunKeeps(header: seq<byte>, ts: seq<Token>) returns (at: seq<nat>)
    requires Run(header, ts).Ok? && |header| >= FRONT
    ensures Addresses(header, ts, at) && Inv(header, ts, at, Run(header, ts).value)
    decreases |ts|
  {
    var s1 := Run(header, ts).value;
    if ts == [] {
      at := [|header|];
      assert ts[..0] == [];
    } else {
      var m := |ts| - 1;
      var s := Run(header, ts[..m]).value;
      CodeGrows(s, |header|, ts[m]);
      var at0 := RunKeeps(header, ts[..m]);
      StepKeeps(header, ts[..m], at0, s, ts[m], s1);
      at := at0 + [|s1.code|];
      assert ts == ts[..m] + [ts[m]];
      AddressesMore(header, ts, at0, s1);
    }
  }

  lemma AddressesMore(header: seq<byte>, ts: seq<Token>, at0: seq<nat>, s1: State)
    requires ts != [] && Addresses(header, ts[..|ts| - 1], at0) && Run(header, ts) == Ok(s1)
    ensures Addresses(header, ts, at0 + [|s1.code|])
  {
    var at, m := at0 + [|s1.code|], |ts| - 1;
    forall k | 0 <= k <= |ts|
      ensures EndsAt(header, ts[..k], at[k])
    {
      if k <= m {
        assert ts[..m][..k] == ts[..k] && EndsAt(header, ts[..m][..k], at0[k]);
      } else {
        assert ts[..k] == ts;
      }
    }
  }

  /** The jump that token u belongs to goes to dest when test holds of the flag, and on behind it when not. */
  ghost predicate Obeys(code: seq<byte>, base: nat, at: seq<nat>, t: nat, test: Test, dest: nat)
    requires t + 1 < |at|
  {
    forall f :: Leaves(code, base, at[t], at[t + 1], f) == if Taken(test, f) then dest else at[t + 1]
  }

  lemma AllObey(code: seq<byte>, base: nat, at: seq<nat>, t: nat, test: Test, long: bool, dest: nat)
    requires t + 1 < |at| && JumpsTo(code, base, at[t], at[t + 1], test, long, dest) && dest < |code|
    requires !(at[t] < dest < at[t + 1])
    ensures Obeys(code, base, at, t, test, dest)
  {
    forall f
      ensures Leaves(code, base, at[t], at[t + 1], f) == if Taken(test, f) then dest else at[t + 1]
    {
      JumpLeaves(code, base, at[t], at[t + 1], test, long, dest, f);
    }
  }

  /** A loop whose do begins too late works only if by chance the byte behind it is the one that is missing. */
  predicate LoopWorks(code: seq<byte>, base: nat, to: nat, test: Test, dest: int) {
    dest < 65536 || (test == Always && ByteAt(code, to) == (dest - base) / 256)
  }

  lemma EarlyLoopObeys(code: seq<byte>, base: nat, at: seq<nat>, u: nat, test: Test, dest: nat)
    requires u + 1 < |at| && JumpsBack(code, base, at[u], at[u + 1], test, dest) && dest <= at[u] && dest < |code|
    ensures Obeys(code, base, at, u, test, dest)
  {
    AllObey(code, base, at, u, test, JumpsTo(code, base, at[u], at[u + 1], test, true, dest), dest);
  }

  lemma SliceHas(code: seq<byte>, from: nat, to: nat, b: seq<byte>, k: nat)
    requires from <= to <= |code| && code[from..to] == b && k < |b|
    ensures |b| == to - from && code[from + k] == b[k]
  {
  }

  /** With a test the byte behind is passed over when the loop ends. */
  lemma LateTestFails(code: seq<byte>, base: nat, from: nat, to: nat, test: Test, dest: int, f: bool)
    requires CutBack(code, base, from, to, test, dest) && test != Always && !Taken(test, f)
    ensures Leaves(code, base, from, to, f) == to + 1
  {
    var b := [OpOf(Opposite(test)), 3, LJ, (dest - base) % 256];
    assert code[from..to] == b;
    SliceHas(code, from, to, b, 0);
    SliceHas(code, from, to, b, 1);
  }

  /** The byte behind stands for the upper byte of the operand. */
  lemma MissingByte(base: nat, dest: nat, n: nat, b: nat)
    requires base <= dest && n == (dest - base) % 256
    ensures (base + n + 256 * b - dest) % 256 == 0 && (base + n + 256 * b == dest <==> b == (dest - base) / 256)
  {
  }

  lemma NotBetween(pc: int, dest: int, from: int)
    requires (pc - dest) % 256 == 0 && dest <= from < dest + 130
    ensures pc != from + 1
  {
  }

  lemma LateAlwaysLeaves(code: seq<byte>, base: nat, from: nat, to: nat, dest: nat, f: bool)
    requires CutBack(code, base, from, to, Always, dest) && FRONT <= base <= dest
    requires 65536 <= dest <= from <= LIMIT && to < |code|
    ensures Leaves(code, base, from, to, f) == dest <==> ByteAt(code, to) == (dest - base) / 256
  {
    var b := [LJ, (dest - base) % 256];
    assert code[from..to] == b;
    SliceHas(code, from, to, b, 0);
    SliceHas(code, from, to, b, 1);
    var pc := base + code[from + 1] + 256 * ByteAt(code, to);
    MissingByte(base, dest, code[from + 1], ByteAt(code, to));
    NotBetween(pc, dest, from);
    assert Execute(code, base, from, f) == if pc >= |code| then -1 else pc;
  }

  lemma LoopObeys(code: seq<byte>, base: nat, at: seq<nat>, u: nat, test: Test, dest: nat)
    requires u + 1 < |at| && LoopsTo(code, base, at[u], at[u + 1], test, dest)
    requires FRONT <= base <= dest <= at[u] <= LIMIT && at[u + 1] < |code| && dest < |code|
    ensures Obeys(code, base, at, u, test, dest) <==> LoopWorks(code, base, at[u + 1], test, dest)
  {
    if dest < 65536 {
      EarlyLoopObeys(code, base, at, u, test, dest);
    } else if test != Always {
      var f := test == WhenFalse;
      LateTestFails(code, base, at[u], at[u + 1], test, dest, f);
      assert Leaves(code, base, at[u], at[u + 1], f) != at[u + 1];
    } else {
      LateAlwaysLeaves(code, base, at[u], at[u + 1], dest, true);
      LateAlwaysLeaves(code, base, at[u], at[u + 1], dest, false);
      assert Taken(test, true);
    }
  }

  /** An if whose operand lies too late keeps the operand 0: it leads nowhere else only if it is short. */
  predicate IfWorks(ts: seq<Token>, at: seq<nat>, t: nat, dest: int)
    requires t < |ts| && |at| == |ts| + 1 && Opens(ts[t])
  {
    OperandOf(ts, at, t) < 65536 || (!ts[t].long && dest == at[t + 1])
  }

  /** A jump with the operand 0 leads to what follows it, or when it is long to the beginning of the program. */
  lemma UnsetLeaves(code: seq<byte>, base: nat, from: nat, to: nat, test: Test, long: bool, f: bool)
    requires HeadAt(code, from, to, test, long) && Unset(code, to, long) && Taken(test, f) && base <= from
    ensures Leaves(code, base, from, to, f) == if long then base else to
  {
    if long {
      assert OperandAt(code, base, to, true, base);
      LongLeaves(code, base, from, to, test, base, f);
    } else {
      assert OperandAt(code, base, to, false, to);
      ShortLeaves(code, base, from, to, test, to, f);
    }
  }

  lemma UnsetObeys(code: seq<byte>, base: nat, at: seq<nat>, t: nat, test: Test, long: bool, dest: nat)
    requires t + 1 < |at| && HeadAt(code, at[t], at[t + 1], test, long) && Unset(code, at[t + 1], long)
    requires base <= at[t] < at[t + 1] <= dest < |code|
    ensures Obeys(code, base, at, t, test, dest) <==> !long && dest == at[t + 1]
  {
    var f := test != WhenFalse;
    UnsetLeaves(code, base, at[t], at[t + 1], test, long, f);
    if !long && dest == at[t + 1] {
      assert OperandAt(code, base, at[t + 1], false, dest);
      AllObey(code, base, at, t, test, false, dest);
    } else {
      assert Taken(test, f);
    }
  }

  lemma IfObeys(ts: seq<Token>, code: seq<byte>, base: nat, at: seq<nat>, t: nat, dest: nat)
    requires t < |ts| && |at| == |ts| + 1 && Opens(ts[t]) && Opened(ts, at, code, t)
    requires ClosedTo(base, ts, at, code, t, dest)
    requires base <= at[t] && at[t + 1] <= dest < |code|
    ensures Obeys(code, base, at, t, TestOf(ts[t]), dest) <==> IfWorks(ts, at, t, dest)
  {
    if OperandOf(ts, at, t) < 65536 {
      AllObey(code, base, at, t, TestOf(ts[t]), ts[t].long, dest);
    } else {
      UnsetObeys(code, base, at, t, TestOf(ts[t]), ts[t].long, dest);
    }
  }

  lemma CodeWithin(header: seq<byte>, ts: seq<Token>)
    requires Run(header, ts).Ok? && ts != []
    ensures |Run(header, ts).value.code| <= LIMIT
  {
  }

  /**
   Where the jumps of a compiled program go, long or short, and however if and do blocks cross. An if or else
   leads behind the else, or to the endif, that closes it, exactly when its operand lies below 65536, short
   ifs over nothing aside. The end of a loop leads to its do exactly when that begins below 65536, chance
   aside.
   */
  lemma StructuredJumps(header: seq<byte>, ts: seq<Token>, code: seq<byte>) returns (at: seq<nat>)
    requires Run(header, ts).Ok? && code == Run(header, ts).value.code + [0] && |header| >= FRONT
    ensures Addresses(header, ts, at)
    ensures forall u :: 0 <= u < |ts| && Closes(ts[u]) ==>
              && OpenIfs(ts[..u]) != []
              && var t := Last(OpenIfs(ts[..u]));
                 Obeys(code, |header|, at, t, TestOf(ts[t]), DestOf(at, ts, u)) <==> IfWorks(ts, at, t, DestOf(at, ts, u))
    ensures forall u :: 0 <= u < |ts| && ts[u].Loop? ==>
              && OpenDos(ts[..u]) != []
              && var dest := at[Last(OpenDos(ts[..u]))];
                 Obeys(code, |header|, at, u, ts[u].test, dest) <==> LoopWorks(code, |header|, at[u + 1], ts[u].test, dest)
  {
    at := RunKeeps(header, ts);
    var s, base := Run(header, ts).value, |header|;
    JumpsStay(base, ts, at, s.code, code, 0);
    forall u | 0 <= u < |ts| && Closes(ts[u])
      ensures OpenIfs(ts[..u]) != []
      ensures
        var t := Last(OpenIfs(ts[..u]));
        Obeys(code, base, at, t, TestOf(ts[t]), DestOf(at, ts, u)) <==> IfWorks(ts, at, t, DestOf(at, ts, u))
    {
      assert Closed(base, ts, at, code, u);
      var t := Last(OpenIfs(ts[..u]));
      assert Opened(ts, at, code, t);
      IfObeys(ts, code, base, at, t, DestOf(at, ts, u));
    }
    forall u | 0 <= u < |ts| && ts[u].Loop?
      ensures OpenDos(ts[..u]) != []
      ensures
        var dest := at[Last(OpenDos(ts[..u]))];
        Obeys(code, base, at, u, ts[u].test, dest) <==> LoopWorks(code, base, at[u + 1], ts[u].test, dest)
    {
      assert Looped(base, ts, at, code, u);
      CodeWithin(header, ts);
      LoopObeys(code, base, at, u, ts[u].test, at[Last(OpenDos(ts[..u]))]);
    }
  }

  // ---------------------------------------------------------------- addresses that are too late

  lemma LoopJumps(header: seq<byte>, ts: seq<Token>, code: seq<byte>, u: nat) returns (at: seq<nat>)
    requires Run(header, ts).Ok? && code == Run(header, ts).value.code + [0] && |header| >= FRONT && u < |ts|
    requires ts[u].Loop?
    ensures Addresses(header, ts, at) && OpenDos(ts[..u]) != []
    ensures
      var dest := at[Last(OpenDos(ts[..u]))];
      Obeys(code, |header|, at, u, ts[u].test, dest) <==> LoopWorks(code, |header|, at[u + 1], ts[u].test, dest)
  {
    at := StructuredJumps(header, ts, code);
  }

  lemma IfJumps(header: seq<byte>, ts: seq<Token>, code: seq<byte>, u: nat, t: nat) returns (at: seq<nat>, dest: nat)
    requires Run(header, ts).Ok? && code == Run(header, ts).value.code + [0] && |header| >= FRONT && u < |ts|
    requires Closes(ts[u])
    requires OpenIfs(ts[..u]) != [] && t == Last(OpenIfs(ts[..u]))
    ensures Addresses(header, ts, at) && t < |ts| && Opens(ts[t]) && dest == DestOf(at, ts, u)
    ensures Obeys(code, |header|, at, t, TestOf(ts[t]), dest) <==> IfWorks(ts, at, t, dest)
  {
    at := StructuredJumps(header, ts, code);
    dest := DestOf(at, ts, u);
  }

  lemma AddressOf(header: seq<byte>, ts: seq<Token>, at: seq<nat>, front: seq<Token>, s: State)
    requires Addresses(header, ts, at) && |front| <= |ts| && ts[..|front|] == front && Run(header, front) == Ok(s)
    ensures at[|front|] == |s.code|
  {
    assert EndsAt(header, ts[..|front|], at[|front|]);
  }

  /** The addresses of a program are what they are. */
  lemma SameAddresses(header: seq<byte>, ts: seq<Token>, at: seq<nat>, at1: seq<nat>)
    requires Addresses(header, ts, at) && Addresses(header, ts, at1)
    ensures at == at1
  {
    forall k | 0 <= k <= |ts|
      ensures at[k] == at1[k]
    {
      assert EndsAt(header, ts[..k], at[k]) && EndsAt(header, ts[..k], at1[k]);
    }
  }

  lemma EndifInHeader(s: State, base: nat, a: nat)
    requires s.ifs != [] && Last(s.ifs) == a && a + 2 <= base <= |s.code| && |s.code| > 65536 && base <= LIMIT
    requires a < 130
    ensures Compiled(s, base, Endif).Ok? <==> a > 0 && s.code[a - 1] == LJ
  {
  }

  /** An if that opens too late is closed only if the byte found in front of its address is that of a long jump. */
  lemma LateIfCloses(header: seq<byte>, ts: seq<Token>, at: seq<nat>, s: State)
    requires Run(header, ts) == Ok(s) && |header| >= FRONT && Addresses(header, ts, at)
    requires OpenIfs(ts) != [] && OperandOf(ts, at, Last(OpenIfs(ts))) >= 65536
    ensures
      var a := OperandOf(ts, at, Last(OpenIfs(ts))) - 65536;
      a < |header| <= |s.code| && (Compiled(s, |header|, Endif).Ok? <==> a > 0 && s.code[a - 1] == LJ)
  {
    var at1 := RunKeeps(header, ts);
    SameAddresses(header, ts, at, at1);
    CodeWithin(header, ts);
    var t := TopEntry(header, ts, at, s);
    EndifInHeader(s, |header|, Last(s.ifs));
  }

  /** Bytes that are no jumps. */
  function Plains(n: nat): (ts: seq<Token>)
    ensures |ts| == n
  {
    if n == 0 then [] else Plains(n - 1) + [Plain([1])]
  }

  lemma RunMore(header: seq<byte>, ts: seq<Token>, t: Token, s: State, s1: State)
    requires Run(header, ts) == Ok(s) && Compiled(s, |header|, t) == Ok(s1) && !TooBig(|s1.code|, |header|)
    ensures Run(header, ts + [t]) == Ok(s1)
  {
    assert (ts + [t])[..|ts|] == ts;
  }

  lemma {:induction false} PlainsRun(header: seq<byte>, n: nat) returns (s: State)
    requires |header| + n <= LIMIT
    ensures Run(header, Plains(n)) == Ok(s) && header <= s.code && |s.code| == |header| + n && s.ifs == []
    ensures s.dos == []
    ensures OpenIfs(Plains(n)) == [] && OpenDos(Plains(n)) == []
  {
    s := State(header, [], []);
    if n > 0 {
      s := PlainsRun(header, n - 1);
      RunMore(header, Plains(n - 1), Plain([1]), s, s.(code := s.code + [1]));
      assert Plains(n)[..n - 1] == Plains(n - 1);
      s := s.(code := s.code + [1]);
    }
  }

  lemma LateDo(s: State, base: nat) returns (s1: State)
    requires |s.code| == 65536 && s.ifs == [] && s.dos == []
    ensures Compiled(s, base, Do) == Ok(s1) && s1 == State(s.code, [], [0])
  {
    s1 := State(s.code, [], [0]);
    assert s.dos + [0] == [0];
  }

  lemma LateForever(s: State, base: nat) returns (s1: State)
    requires |s.code| == 65536 && s.dos == [0] && base >= FRONT
    ensures Compiled(s, base, Loop(Always)) == Ok(s1) && |s1.code| == 65538
  {
    s1 := Compiled(s, base, Loop(Always)).value;
  }

  lemma LateLoopRuns(header: seq<byte>, front: seq<Token>, s: State) returns (mid: seq<Token>, s1: State, s2: State)
    requires Run(header, front) == Ok(s) && |s.code| == 65536 && s.ifs == [] && s.dos == [] && |header| >= FRONT
    ensures mid == front + [Do] && Run(header, mid) == Ok(s1)
    ensures Run(header, mid + [Loop(Always)]) == Ok(s2) && |s2.code| == 65538
  {
    mid := front + [Do];
    s1 := LateDo(s, |header|);
    RunMore(header, front, Do, s, s1);
    s2 := LateForever(s1, |header|);
    RunMore(header, mid, Loop(Always), s1, s2);
  }

  lemma DoOpens(front: seq<Token>, mid: seq<Token>)
    requires mid == front + [Do] && OpenDos(front) == []
    ensures OpenDos(mid) == [|front|]
  {
    assert mid[..|front|] == front;
  }

  /** A loop behind front, which ends at address 65536. */
  lemma LateLoopBehind(header: seq<byte>, front: seq<Token>, mid: seq<Token>, ts: seq<Token>, s: State, s2: State)
    returns (at: seq<nat>)
    requires Run(header, front) == Ok(s) && |s.code| == 65536 && FRONT <= |header| <= 65280
    requires mid == front + [Do] && ts == mid + [Loop(Always)] && Run(header, ts) == Ok(s2) && |s2.code| == 65538
    requires OpenDos(mid) == [|front|]
    ensures Addresses(header, ts, at) && !Obeys(s2.code + [0], |header|, at, |mid|, Always, at[|front|])
  {
    assert ts[..|front|] == front && ts[..|mid|] == mid && ts[..|ts|] == ts;
    at := LoopJumps(header, ts, s2.code + [0], |mid|);
    AddressOf(header, ts, at, front, s);
    AddressOf(header, ts, at, ts, s2);
  }

  /** A program that is compiled although its loop, which begins at address 65536, does not lead to its do. */
  lemma LateLoop(header: seq<byte>, n: nat, ts: seq<Token>) returns (at: seq<nat>)
    requires |header| + n == 65536 && FRONT <= |header| <= 65280 && ts == Plains(n) + [Do] + [Loop(Always)]
    ensures Run(header, ts).Ok? && Addresses(header, ts, at) && OpenDos(ts[..n + 1]) == [n]
    ensures !Obeys(Run(header, ts).value.code + [0], |header|, at, n + 1, Always, at[n])
  {
    var s := PlainsRun(header, n);
    var mid, s1, s2 := LateLoopRuns(header, Plains(n), s);
    DoOpens(Plains(n), mid);
    at := LateLoopBehind(header, Plains(n), mid, ts, s, s2);
    assert ts[..n + 1] == mid;
  }

  const SHORT_IF := If(OnFalse, false)
  const ONE_BYTE := Plain([1])

  lemma LateOpen(s: State, base: nat) returns (s1: State)
    requires |s.code| == 65538 && s.ifs == []
    ensures Compiled(s, base, SHORT_IF) == Ok(s1) && s1 == State(s.code + [JF] + [0], [3], s.dos)
  {
    s1 := State(s.code + [JF] + [0], [3], s.dos);
    assert s.ifs + [3] == [3];
  }

  lemma LateEndif(s: State, base: nat) returns (s1: State)
    requires |s.code| == 65541 >= base && s.code[2] == LJ && s.ifs == [3]
    ensures Compiled(s, base, Endif) == Ok(s1) && |s1.code| == 65541
  {
    s1 := Compiled(s, base, Endif).value;
  }

  lemma LateIfOpens(header: seq<byte>, front: seq<Token>, s: State)
    returns (open: seq<Token>, mid: seq<Token>, s1: State, s2: State)
    requires Run(header, front) == Ok(s) && |s.code| == 65538 && s.ifs == [] && s.code[2] == LJ
    ensures open == front + [SHORT_IF] && Run(header, open) == Ok(s1) && |s1.code| == 65540
    ensures mid == open + [ONE_BYTE] && Run(header, mid) == Ok(s2) && |s2.code| == 65541 && s2.code[2] == LJ
    ensures s2.ifs == [3]
  {
    open := front + [SHORT_IF];
    s1 := LateOpen(s, |header|);
    RunMore(header, front, SHORT_IF, s, s1);
    mid := open + [ONE_BYTE];
    s2 := s1.(code := s1.code + [1]);
    RunMore(header, open, ONE_BYTE, s1, s2);
  }

  lemma IfOpens(front: seq<Token>, open: seq<Token>, mid: seq<Token>)
    requires open == front + [SHORT_IF] && mid == open + [ONE_BYTE] && OpenIfs(front) == []
    ensures OpenIfs(mid) == [|front|]
  {
    assert open[..|front|] == front && mid[..|open|] == open;
  }

  /** An if behind front, which ends at address 65538. */
  lemma LateIfBehind(header: seq<byte>, front: seq<Token>, open: seq<Token>, mid: seq<Token>, ts: seq<Token>,
                     s1: State, s2: State,
                     s3: State) returns (at: seq<nat>)
    requires open == front + [SHORT_IF] && mid == open + [ONE_BYTE] && ts == mid + [Endif] && FRONT <= |header|
    requires Run(header, open) == Ok(s1) && |s1.code| == 65540 && Run(header, mid) == Ok(s2) && |s2.code| == 65541
    requires Run(header, ts) == Ok(s3) && OpenIfs(mid) == [|front|]
    ensures Addresses(header, ts, at) && !Obeys(s3.code + [0], |header|, at, |front|, WhenFalse, at[|mid|])
  {
    assert ts[..|open|] == open && ts[..|mid|] == mid && ts[|front|] == SHORT_IF && ts[|mid|] == Endif;
    var dest;
    at, dest := IfJumps(header, ts, s3.code + [0], |mid|, |front|);
    AddressOf(header, ts, at, open, s1);
    AddressOf(header, ts, at, mid, s2);
  }

  /** A program that is compiled although its if leads to what follows it, not to its endif. */
  lemma LateIf(header: seq<byte>, n: nat, ts: seq<Token>) returns (at: seq<nat>)
    requires |header| + n == 65538 && FRONT <= |header| && header[2] == LJ
    requires ts == Plains(n) + [SHORT_IF] + [ONE_BYTE] + [Endif]
    ensures Run(header, ts).Ok? && Addresses(header, ts, at) && OpenIfs(ts[..n + 2]) == [n]
    ensures !Obeys(Run(header, ts).value.code + [0], |header|, at, n, WhenFalse, at[n + 2])
  {
    var s := PlainsRun(header, n);
    var open, mid, s1, s2 := LateIfOpens(header, Plains(n), s);
    IfOpens(Plains(n), open, mid);
    var s3 := LateEndif(s2, |header|);
    RunMore(header, mid, Endif, s2, s3);
    at := LateIfBehind(header, Plains(n), open, mid, ts, s1, s2, s3);
    assert ts[..n + 2] == mid;
  }
}
