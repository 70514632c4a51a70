/** The disassembler's walk over code words. */
module Disassembling {
  import opened Prelude
  import opened Opcodes
  import opened Layout

  /** List the instruction at every position that the walk stops at. */
  method Disassemble(code: array<nat>) returns (listing: seq<Entry>)
    requires Whole(code[..], 0)
    ensures listing == Walk(code[..], 0)
  {
    hide ArgCount;
    listing := [];
    var pos := 0;
    while pos < code.Length
      invariant Whole(code[..], pos)
      invariant listing + Walk(code[..], pos) == Walk(code[..], 0)
      decreases code.Length - pos
    {
      var opcodePos := pos;
      pos := pos + 1;
      var opcode := code[opcodePos];
      var args: seq<nat> := [];
      for arg := 0 to ArgCount(opcode)
        invariant args == code[pos..pos + arg]
      {
        args := args + [code[pos + arg]];
      }
      listing := listing + [Entry(opcodePos, opcode, args)];
      pos := pos + ArgCount(opcode);
    }
  }
}
