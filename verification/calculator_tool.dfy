/** The calculator tool of backend/agent/tools/calculator_tool.py: a
    character whitelist in front of Python's `eval`. The evaluator is a
    function parameter returning the text of the result or of the exception
    it raised. */
module CalculatorTool {
  import opened Wrappers
  import opened Text

  /** The characters an expression may contain. */
  const Allowed: set<char> := {'0', '1', '2', '3', '4', '5', '6', '7', '8', '9',
                               '+', '-', '*', '/', '(', ')', '.', ',', ' '}

  /** The fixed answer for an expression outside the whitelist. */
  const Rejection: string := "Error: " + RejectionDetail
  const RejectionDetail: string :=
    "Invalid characters in expression. Only numbers, operators (+, -, *, /), parentheses, and decimal points are allowed."
  const SuccessPrefix: string := "Calculation: "
  const ErrorPrefix: string := "Calculation error: "

  predicate Whitelisted(expression: string) {
    forall i :: 0 <= i < |expression| ==> expression[i] in Allowed
  }

  /** `_handler(expression)`: the whitelist check, then `eval`, with every
      evaluator failure turned into text. */
  function Calculate(expression: string, eval: string -> Result<string, string>): (r: string)
    ensures r == Rejection <==> !Whitelisted(expression)
    ensures Whitelisted(expression) && eval(expression).Ok? ==>
              SuccessPrefix + expression <= r
    ensures Whitelisted(expression) && eval(expression).Err? ==>
              ErrorPrefix <= r && r[|ErrorPrefix|..] == eval(expression).error
  {
    if !Whitelisted(expression) then Rejection
    else
      match eval(expression)
      case Ok(v) =>
        assert (SuccessPrefix + expression + " = " + v)[0] == 'C' != Rejection[0];
        SuccessPrefix + expression + " = " + v
      case Err(e) =>
        assert (ErrorPrefix + e)[0] == 'C' != Rejection[0];
        ErrorPrefix + e
  }

  /** A rejected expression never reaches the evaluator: the answer is the
      same whatever `eval` would do. */
  lemma RejectedNeverEvaluated(expression: string, eval1: string -> Result<string, string>,
                               eval2: string -> Result<string, string>)
    requires !Whitelisted(expression)
    ensures Calculate(expression, eval1) == Calculate(expression, eval2) == Rejection
  {
  }

  /** The empty expression passes the whitelist and is handed to `eval`. */
  lemma EmptyExpressionEvaluated(eval: string -> Result<string, string>)
    ensures Calculate("", eval) != Rejection
    ensures eval("").Ok? ==> Calculate("", eval) == SuccessPrefix + " = " + eval("").value
  {
    assert Whitelisted("");
    assert SuccessPrefix + "" == SuccessPrefix;
  }

  /** Space is the only whitespace let through: a tab, a newline or any other
      whitespace character gets the expression rejected. */
  lemma OnlySpaceAllowed(expression: string, i: nat, eval: string -> Result<string, string>)
    requires i < |expression| && IsSpace(expression[i]) && expression[i] != ' '
    ensures Calculate(expression, eval) == Rejection
  {
    assert expression[i] !in Allowed;
  }

  /** A successful answer can be read back: the expression is the text
      between the prefix and the first `=`, since `=` is not whitelisted. */
  lemma SuccessReadsBack(expression: string, eval: string -> Result<string, string>)
    requires Whitelisted(expression) && eval(expression).Ok?
    ensures var r := Calculate(expression, eval);
      && FirstIndex(r, '=') == Some(|SuccessPrefix| + |expression| + 1)
      && r[|SuccessPrefix|..FirstIndex(r, '=').value - 1] == expression
      && r[FirstIndex(r, '=').value + 2..] == eval(expression).value
  {
    NoEqualsBefore(expression);
    ReadBack(SuccessPrefix, expression, eval(expression).value);
  }

  /** In `p + e + " = " + v` with no `=` before the separator, the first `=`
      is the separator's and `e` and `v` sit on either side of it. */
  lemma ReadBack(p: string, e: string, v: string)
    requires '=' !in p + e + " "
    ensures var r := p + e + " = " + v;
      && FirstIndex(r, '=') == Some(|p| + |e| + 1)
      && r[..|p|] == p
      && r[|p|..|p| + |e|] == e
      && r[|p| + |e|..|p| + |e| + 3] == " = "
      && r[|p| + |e| + 3..] == v
  {
    var head := p + e + " ";
    var r := p + e + " = " + v;
    assert r == head + ("= " + v);
    assert r[..|head|] == head;
    FirstIndexAt(r, '=', |head|);
  }

  /** Nothing before the ` = ` of a successful answer is an `=`. */
  lemma NoEqualsBefore(expression: string)
    requires Whitelisted(expression)
    ensures '=' !in SuccessPrefix + expression + " "
  {
    forall i | 0 <= i < |expression| ensures expression[i] != '=' {
      assert expression[i] in Allowed;
    }
  }

  /** The three kinds of answer are told apart by their first characters. */
  lemma AnswersDistinguishable(expression: string, eval: string -> Result<string, string>)
    ensures var r := Calculate(expression, eval);
      && (r == Rejection || SuccessPrefix <= r || ErrorPrefix <= r)
      && !(SuccessPrefix <= Rejection) && !(ErrorPrefix <= Rejection)
      && (eval(expression).Err? ==> !(SuccessPrefix <= ErrorPrefix + eval(expression).error))
  {
    assert Rejection[0] == 'E' && SuccessPrefix[0] == 'C' && ErrorPrefix[0] == 'C';
    assert SuccessPrefix[11] == ':' && ErrorPrefix[11] == ' ';
    if eval(expression).Err? {
      assert (ErrorPrefix + eval(expression).error)[11] == ' ';
    }
  }
}
