/** The compiler of structured jumps as it runs: bytes put into a header, operands set later, two stacks. */
module ZpaqlCompiler {
  import opened Bytes
  import opened Results
  import opened ZpaqlJumps

  /** A stack of 16-bit addresses. */
  class Stack {
    const s: array<nat>
    var top: nat

    ghost predicate Valid()
      reads this
    {
      s.Length == STACK_SIZE && top <= STACK_SIZE
    }

    ghost function Contents(): seq<nat>
      requires Valid()
      reads this, s
    {
      s[..top]
    }

    constructor ()
      ensures Valid() && fresh(s) && Contents() == []
    {
      s := new nat[STACK_SIZE];
      top := 0;
    }

    method Push(x: nat) returns (ok: bool)
      requires Valid()
      modifies this, s
      ensures Valid()
      ensures match Pushed(old(Contents()), x)
              case Ok(c) => ok && Contents() == c
              case Err(_) => !ok && Contents() == old(Contents())
    {
      if top >= s.Length {
        return false;
      }
      ghost var before := Contents();
      s[top] := x % 65536;
      top := top + 1;
      assert s[..top] == before + [x % 65536];
      return true;
    }

    /** The last address, or -1 from an empty stack. */
    method Pop() returns (x: int)
      requires Valid()
      modifies this
      ensures Valid()
      ensures
        var c := old(Contents());
        if c == [] then x == -1 && Contents() == c else x == Last(c) && Contents() == c[..|c| - 1]
    {
      if top == 0 {
        return -1;
      }
      top := top - 1;
      return s[top];
    }
  }

  class Compiler {
    const header: array<byte>
    const begin: nat
    const ifStack: Stack
    const doStack: Stack
    var hend: nat

    ghost predicate Valid()
      reads this, header, ifStack, doStack, ifStack.s, doStack.s
    {
      && header.Length == HEADER_SIZE && GAP <= begin <= hend < HEADER_SIZE
      && ifStack != doStack && ifStack.s != doStack.s && ifStack.Valid() && doStack.Valid()
    }

    ghost function Now(): State
      requires Valid()
      reads this, header, ifStack, doStack, ifStack.s, doStack.s
    {
      State(header[..hend], ifStack.Contents(), doStack.Contents())
    }

    /** Starts behind the components and a gap of zeros. */
    constructor (front: seq<byte>)
      requires GAP <= |front| < HEADER_SIZE - 130
      ensures Valid() && fresh(header) && fresh(ifStack) && fresh(doStack) && fresh(ifStack.s) && fresh(doStack.s)
      ensures Now() == State(front, [], []) && begin == |front|
    {
      var h := new byte[HEADER_SIZE](i => 0);
      header := h;
      begin, hend := |front|, |front|;
      ifStack := new Stack();
      doStack := new Stack();
      new;
      var k := 0;
      while k < |front|
        modifies header
        invariant 0 <= k <= |front| && header[..k] == front[..k]
      {
        header[k] := front[k];
        k := k + 1;
      }
    }

    /** Appends bytes. */
    method Put(b: seq<byte>)
      requires Valid() && hend + |b| < HEADER_SIZE
      modifies this`hend, header
      ensures Valid() && hend == old(hend) + |b| && Now() == old(Now()).(code := old(Now().code) + b)
    {
      ghost var before := header[..hend];
      var k := 0;
      while k < |b|
        invariant 0 <= k <= |b| && hend == old(hend) + k && header[..hend] == before + b[..k]
      {
        ghost var now := header[..hend];
        header[hend] := b[k];
        hend := hend + 1;
        assert header[..hend] == now + [b[k]];
        k := k + 1;
      }
      assert b[..|b|] == b;
    }

    method PutOpen(test: Test, long: bool) returns (r: Result<(), Error>)
      requires Valid() && hend < HEADER_SIZE - 10
      modifies this`hend, header, ifStack, ifStack.s
      ensures Valid()
      ensures match OpenJump(old(Now()), test, long)
              case Ok(s) => r == Ok(()) && Now() == s
              case Err(e) => r == Err(e)
    {
      var ok := ifStack.Push(hend + |Head(test, long)|);
      if !ok {
        return Err(TooDeep);
      }
      Put(Head(test, long));
      Put(if long then [0, 0] else [0]);
      return Ok(());
    }

    method SetOperand(dest: nat) returns (r: Result<(), Error>)
      requires Valid()
      modifies header, ifStack
      ensures Valid() && hend == old(hend)
      ensures match Close(old(Now()), begin, dest)
              case Ok(s) => r == Ok(()) && Now() == s
              case Err(e) => r == Err(e)
    {
      var a := ifStack.Pop();
      if a < 0 {
        return Err(Unmatched);
      }
      if a < 1 || a + 1 > hend || (header[a - 1] == LJ && a + 2 > hend) || dest < begin {
        return Err(Wild);
      }
      ghost var code := header[..hend];
      if header[a - 1] == LJ {
        var lo: byte, hi: byte := (dest - begin) % 256, (dest - begin) / 256 % 256;
        header[a] := lo;
        ghost var half: seq<byte> := code[a := lo];
        assert header[..hend] == half;
        header[a + 1] := hi;
        assert header[..hend] == half[a + 1 := hi];
      } else if dest - a - 1 > 127 {
        return Err(IfTooBig);
      } else {
        var j: byte := (dest - a - 1) % 256;
        header[a] := j;
        assert header[..hend] == code[a := j];
      }
      return Ok(());
    }

    method PutBack(test: Test) returns (r: Result<(), Error>)
      requires Valid() && hend < HEADER_SIZE - 10
      modifies this`hend, header, doStack
      ensures Valid()
      ensures match JumpBack(old(Now()), begin, test)
              case Ok(s) => r == Ok(()) && Now() == s
              case Err(e) => r == Err(e)
    {
      var a := doStack.Pop();
      if a < 0 {
        return Err(Unmatched);
      }
      var j := a - hend - 2;
      if j >= -127 {
        Put(Head(test, false));
        Put([j % 256]);
      } else {
        PutLong(test, a - begin);
      }
      return Ok(());
    }

    /** A long jump; a negative address has no second operand. */
    method PutLong(test: Test, to: int)
      requires Valid() && hend < HEADER_SIZE - 10
      modifies this`hend, header
      ensures Valid()
      ensures Now() == old(Now()).(code := old(Now()).code + Head(test, true) + [to % 256]
                                            + if to >= 0 then [to / 256 % 256] else [])
    {
      Put(Head(test, true));
      Put([to % 256]);
      if to >= 0 {
        Put([to / 256 % 256]);
      } else {
        assert header[..hend] + [] == header[..hend];
      }
    }

    /** An else: the jump in front of it is closed, one over its block opened. */
    method PutElse(long: bool) returns (r: Result<(), Error>)
      requires Valid() && hend < HEADER_SIZE - 130
      modifies this`hend, header, ifStack, ifStack.s
      ensures Valid()
      ensures match Compiled(old(Now()), begin, Else(long))
              case Ok(s) => r == Ok(()) && Now() == s
              case Err(e) => r == Err(e)
    {
      r := SetOperand(hend + 2 + if long then 1 else 0);
      if r.Ok? {
        r := PutOpen(Always, long);
      }
    }

    method Emit(t: Token) returns (r: Result<(), Error>)
      requires Valid() && hend < HEADER_SIZE - 130 && (t.Plain? ==> |t.code| <= 3)
      modifies this`hend, header, ifStack, doStack, ifStack.s, doStack.s
      ensures Valid()
      ensures match Compiled(old(Now()), begin, t)
              case Ok(s) => r == Ok(()) && Now() == s
              case Err(e) => r == Err(e)
    {
      match t {
        case Plain(code) =>
          Put(code);
          r := Ok(());
        case If(_, long) => r := PutOpen(TestOf(t), long);
        case Else(long) => r := PutElse(long);
        case Endif => r := SetOperand(hend);
        case Do =>
          var ok := doStack.Push(hend);
          r := if ok then Ok(()) else Err(TooDeep);
        case Loop(test) => r := PutBack(test);
      }
    }

    /** Compiles one token, as the step does. */
    method Next(t: Token) returns (r: Result<(), Error>)
      requires Valid() && hend < HEADER_SIZE - 130 && (t.Plain? ==> |t.code| <= 3)
      modifies this`hend, header, ifStack, doStack, ifStack.s, doStack.s
      ensures Valid() && (r.Ok? ==> hend < HEADER_SIZE - 130)
      ensures match Step(old(Now()), begin, t)
              case Ok(s) => r == Ok(()) && Now() == s
              case Err(e) => r == Err(e)
    {
      r := Emit(t);
      if r.Ok? && TooBig(hend, begin) {
        return Err(ProgramTooBig);
      }
    }

    /** Compiles a whole program; if it succeeds the header holds what running the steps gives, and an end. */
    method Program(ts: seq<Token>) returns (r: Result<(), Error>)
      requires Valid() && hend == begin < HEADER_SIZE - 130 && Now() == State(header[..begin], [], [])
      requires forall t :: t in ts && t.Plain? ==> |t.code| <= 3
      modifies this`hend, header, ifStack, doStack, ifStack.s, doStack.s
      ensures Valid()
      ensures match Run(old(header[..begin]), ts)
              case Ok(s) => r == Ok(()) && header[..hend] == s.code + [0]
              case Err(e) => r == Err(e)
    {
      ghost var front := header[..begin];
      var k := 0;
      assert ts[..0] == [];
      while k < |ts|
        invariant 0 <= k <= |ts| && Valid() && hend < HEADER_SIZE - 130 && Run(front, ts[..k]) == Ok(Now())
      {
        assert ts[..k + 1][..k] == ts[..k] && ts[k] in ts;
        r := Next(ts[k]);
        if r.Err? {
          RunFails(front, ts, k + 1);
          return;
        }
        k := k + 1;
      }
      assert ts[..|ts|] == ts;
      Put([0]);
      r := Ok(());
    }
  }

  /** An error ends the compilation. */
  lemma {:induction false} RunFails(header: seq<byte>, ts: seq<Token>, k: nat)
    requires k <= |ts| && Run(header, ts[..k]).Err?
    ensures Run(header, ts) == Run(header, ts[..k])
    decreases |ts|
  {
    if k < |ts| {
      assert ts[..|ts| - 1][..k] == ts[..k];
      RunFails(header, ts[..|ts| - 1], k);
    } else {
      assert ts[..k] == ts;
    }
  }
}
