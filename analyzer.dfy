/** `analyze_code`: parse the text, run the structural pass over the tree
    and the lexical pass over the lines, and return the three lists. */
module Analyzer {
  import opened SyntaxTree
  import Structural
  import Lexical

  datatype Result<T, E> = Success(value: T) | Failure(error: E)

  /** What `ast.parse` raises on text that is not a Python module. */
  datatype SyntaxError = SyntaxError(line: nat, message: string)

  /** The triple `analyze_code` returns. */
  datatype Report = Report(codeSmells: seq<string>, antiPatterns: seq<string>, lexicalIssues: seq<string>)

  /** `analyze_code(code)`, where `parsed` is what `ast.parse(code)` gives:
      the module's tree, or the syntax error it raises. A syntax error ends
      the call before either pass runs. Otherwise the code smells are the
      rule hits over every node of the tree (one per hit, in the walk's
      order), the anti-patterns are one singleton hint per `_instance`
      target, and the lexical issues follow the lines in order. */
  method AnalyzeCode(code: string, parsed: Result<Node, SyntaxError>) returns (r: Result<Report, SyntaxError>)
    ensures parsed.Failure? <==> r.Failure?
    ensures parsed.Failure? ==> r.error == parsed.error
    ensures parsed.Success? ==>
      multiset(r.value.codeSmells) == multiset(Structural.TreeSmells(parsed.value))
    ensures parsed.Success? ==>
      var nodes := Subtrees(parsed.value);
      |r.value.codeSmells| == Count(nodes, Structural.IsLongFunction)
        + Count(nodes, Structural.IsLargeClass) + Count(nodes, Structural.HasNestedLoop)
    ensures parsed.Success? ==> |r.value.antiPatterns| == Structural.SingletonTotal(parsed.value)
    ensures parsed.Success? ==>
      forall k :: 0 <= k < |r.value.antiPatterns| ==> r.value.antiPatterns[k] == Structural.SingletonMessage
    ensures parsed.Success? ==> r.value.lexicalIssues == Lexical.IssuesFrom(Lexical.SplitLines(code), 1)
    ensures parsed.Success? && code == [] ==> r.value.lexicalIssues == []
  {
    if parsed.Failure? {
      return Failure(parsed.error);
    }
    var tree := parsed.value;
    var codeSmells, antiPatterns := Structural.AnalyzeTree(tree);
    Structural.SmellCount(tree);
    var lexicalIssues := Lexical.AnalyzeLines(code);
    r := Success(Report(codeSmells, antiPatterns, lexicalIssues));
  }
}
