/** From a pattern string to the place it matches. */
module RegexPattern {
  import opened RegexCode
  import opened RegexAst
  import opened RegexSyntax
  import opened RegexWellFormed
  import opened RegexLoops
  import opened RegexMachine
  import opened RegexCompile
  import opened RegexAnswer
  import opened RegexSearch

  /** Compiles a pattern and searches a text for it: the answer is the least position at which matching
      succeeds, or -1 if it succeeds nowhere, or -2 if it overflows first. What is found is a match of what
      the pattern reads as, and for a safe program it is the first one. */
  method FindFirst(syn: RegexSyntax.Syntax, pat: Text, txt: Text) returns (status: Status, result: int)
    requires match ParsePattern(syn, pat)
      case Ok(r) => Supported(r) && Small(r)
      case Err(_) => true
    ensures match ParsePattern(syn, pat)
      case Err(e) => status == Failed(e)
      case Ok(r) =>
        status == Fine && FirstAnswer(r, txt, 0, |txt|, result)
  {
    hide Variant, Program, Boundaries, Small, Supported, FirstAnswer, ParsePattern, WellFormed, CanUpdate;
    var code;
    code, status := CompilePattern(syn, pat);
    result := -1;
    if status != Fine { return; }
    ghost var r := ParsePattern(syn, pat).value;
    var buffer, fastmap := new Byte[|code|](i requires 0 <= i < |code| => code[i]), new bool[256];
    assert buffer[..] == code;
    assert buffer[..|code|] == code;
    ProgramWellFormed(r);
    GenuineFresh(Program(r), Boundaries(r));
    var search := new PatternBuffer(buffer, |code|, fastmap);
    result := search.Search(txt, 0, |txt|, r);
  }
}
