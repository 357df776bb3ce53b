/** The fields and the switch statements behind TtyParser (software/textwm2/tty.c:340-457). */
module TtyHandler {
  import opened MachineTypes
  import opened TtyParser

  class Handler {
    var state: State
    const csi: array<byte>
    var csiLen: int
    var ucode: uint32
    var ucount: uint32

    constructor ()
      ensures Valid() && Value() == Parser(Ground, [], 0, 0) && fresh(csi)
    {
      state, csiLen, ucode, ucount := Ground, 0, 0, 0;
      csi := new byte[CSI_MAX_LEN];
    }

    ghost predicate Valid()
      reads this, csi
    {
      csi.Length == CSI_MAX_LEN && 0 <= csiLen < CSI_MAX_LEN && Legal(Value())
    }

    ghost function Value(): Parser
      reads this, csi
      requires csi.Length == CSI_MAX_LEN && 0 <= csiLen < CSI_MAX_LEN
    {
      Parser(state, csi[..csiLen], ucode, ucount)
    }

    /** A zero byte follows the sequence, as sscanf and strcmp need it. */
    predicate Ended()
      reads this, csi
    {
      0 <= csiLen < csi.Length && csi[csiLen] == 0
    }

    /** tty_handler.  What it does to the screen is returned as a list of at most one action. */
    method Handle(c: byte) returns (actions: seq<Action>)
      requires Valid()
      modifies this, csi
      ensures Valid() && (Value(), actions) == Next(old(Value()), c)
      ensures actions != [] && actions[0].Sequence? ==> Ended()
    {
      NextIsLegal(Value(), c);
      actions := [];
      if state == Ground {
        if IsControl(c) {
          actions := [Control(c)];
        } else if c == ESC {
          state := Escape;
        } else if c / 128 % 2 == 1 {
          state := Utf;
          if c / 32 % 2 == 0 {
            ucount, ucode := 2, c % 32;
          } else if c / 16 % 2 == 0 {
            ucount, ucode := 3, c % 16;
          } else {
            ucount, ucode := 4, c % 8;
          }
        } else {
          actions := Printing(c);
        }
      } else if state == Escape {
        csiLen := 0;
        assert csi[..0] == [];
        if c == BRACKET {
          state := Csi;
        } else if c == 0x28 {
          state := CharsetG0;
        } else if c == 0x29 {
          state := CharsetG1;
        } else {
          actions := [EscapeCode(c)];
          state := Ground;
        }
      } else if state == CharsetG0 {
        state := Ground;
      } else if state == CharsetG1 {
        state := Ground;
      } else if state == Utf {
        ucode := U32(ucode * 64) + c % 64;
        ucount := U32(ucount - 1);
        if ucount == 1 {
          if ucode == CSI_CODE {
            csiLen := 0;
            assert csi[..0] == [];
            state := Csi;
            return;
          }
          state := Ground;
          actions := Printing(ucode);
        }
      } else {
        if c == CAN || c == SUB {
          state := Ground;
          return;
        }
        actions := Collect(c);
      }
    }

    /** tty_print, as far as it decides whether anything is printed. */
    method Printing(code: uint32) returns (actions: seq<Action>)
      ensures actions == TtyPrint(code)
    {
      actions := [];
      if code < 32 {
        return;
      }
      actions := [Print(code)];
    }

    method Collect(c: byte) returns (actions: seq<Action>)
      requires Valid() && state == Csi && c != CAN && c != SUB
      modifies this`state, this`csiLen, csi
      ensures Valid() && (Value(), actions) == Next(old(Value()), c)
      ensures actions != [] ==> Ended()
    {
      NextIsLegal(Value(), c);
      ghost var text := csi[..csiLen] + [c];
      csi[csiLen] := c;
      csiLen := csiLen + 1;
      assert csi[..csiLen] == text;
      actions := [];
      if IsFinal(c) || csiLen == CSI_MAX_LEN - 1 {
        state := Ground;
        csi[csiLen] := 0;
        assert csi[..csiLen] == text;
        actions := [Sequence(csi[..csiLen])];
      }
    }

    /** The loop over the bytes that one read() has delivered. */
    method HandleAll(input: seq<byte>) returns (actions: seq<Action>)
      requires Valid()
      modifies this, csi
      ensures Valid() && (Value(), actions) == Run(old(Value()), input)
    {
      hide Next, Legal;
      actions := [];
      var j := 0;
      assert input[..0] == [];
      while j < |input|
        invariant 0 <= j <= |input| && Valid()
        invariant (Value(), actions) == Run(old(Value()), input[..j])
      {
        RunNext(old(Value()), input, j);
        var more := Handle(input[j]);
        actions := actions + more;
        j := j + 1;
      }
      assert input[..j] == input;
    }
  }

  lemma RunNext(p: Parser, input: seq<byte>, j: nat)
    requires j < |input|
    ensures Run(p, input[..j + 1]) ==
            (Next(Run(p, input[..j]).0, input[j]).0, Run(p, input[..j]).1 + Next(Run(p, input[..j]).0, input[j]).1)
  {
    hide Next;
    assert input[..j + 1] == input[..j] + [input[j]];
    RunSplit(p, input[..j], [input[j]]);
    RunOf1(Run(p, input[..j]).0, input[j]);
  }
}
