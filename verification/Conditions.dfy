/** Filter expressions: the XPath text of a list of conditions, and the string surgery done on it. */
module Conditions {

  const EXPRESSION_START := "//wfs:member["

  // (c1) and (c2) and ... and (cn)
  function Joined(conditions: seq<string>): string
    requires conditions != []
  {
    var last := "(" + conditions[|conditions| - 1] + ")";
    if |conditions| == 1 then last else Joined(conditions[..|conditions| - 1]) + " and " + last
  }

  function Render(conditions: seq<string>): (s: string)
    ensures s == "" <==> conditions == []
  {
    if conditions == [] then "" else EXPRESSION_START + Joined(conditions) + "]"
  }

  // std::string::find_first_of, with |s| for npos
  function FindFirst(s: string, c: char): (r: nat)
    ensures r <= |s|
    ensures r < |s| ==> s[r] == c
    ensures forall i :: 0 <= i < r ==> s[i] != c
  {
    if s == [] || s[0] == c then 0 else 1 + FindFirst(s[1..], c)
  }

  // The expression with a further condition, as read_comparison_operation writes it.
  function AddCondition(expression: string, condition: string): string {
    if expression == "" then "//wfs:member[(" + condition + ")]"
    else expression[..|expression| - 1] + " and (" + condition + ")]"
  }

  // The target's expression with the source's one merged in, as copy_params writes it.
  function MergeExpression(source: string, target: string): string {
    if source == "" then target
    else if target == "" then source
    else
      target[..|target| - 1] + " and " + source[AfterFirst(source, '[')..]
  }

  // find_first_of(c) + 1, which is 0 when there is no c
  function AfterFirst(s: string, c: char): (r: nat)
    ensures r <= |s|
  {
    if FindFirst(s, c) == |s| then 0 else FindFirst(s, c) + 1
  }

  // The surgery appends to the list of conditions, whatever characters a condition contains.
  lemma AddConditionAppends(conditions: seq<string>, condition: string)
    ensures AddCondition(Render(conditions), condition) == Render(conditions + [condition])
  {
    var longer := conditions + [condition];
    assert longer[..|longer| - 1] == conditions;
    if conditions == [] {
      assert Joined(longer) == "(" + condition + ")";
      assert Render(longer) == "//wfs:member[(" + condition + ")]";
    } else {
      var e := Render(conditions);
      assert e[..|e| - 1] == EXPRESSION_START + Joined(conditions);
      assert Render(longer) == e[..|e| - 1] + " and (" + condition + ")]";
    }
  }

  lemma {:induction false} JoinedConcat(a: seq<string>, b: seq<string>)
    requires a != [] && b != []
    ensures Joined(a + b) == Joined(a) + " and " + Joined(b)
  {
    var whole, init := a + b, b[..|b| - 1];
    assert whole[..|whole| - 1] == a + init && whole[|whole| - 1] == b[|b| - 1];
    if |b| == 1 {
      assert a + init == a;
    } else {
      JoinedConcat(a, init);
    }
  }

  lemma FirstBracket(s: string)
    ensures FindFirst(EXPRESSION_START + s, '[') == 12
  {
    var e := EXPRESSION_START + s;
    assert e[12] == '[';
    assert forall i :: 0 <= i < 12 ==> e[i] == EXPRESSION_START[i] != '[';
  }

  lemma MergeExpressionConcatenates(source: seq<string>, target: seq<string>)
    ensures MergeExpression(Render(source), Render(target)) == Render(target + source)
  {
    if source == [] {
      assert target + source == target;
    } else if target == [] {
      assert target + source == source;
    } else {
      var s, t := Render(source), Render(target);
      FirstBracket(Joined(source) + "]");
      assert s == EXPRESSION_START + (Joined(source) + "]");
      assert s[13..] == Joined(source) + "]";
      assert t[..|t| - 1] == EXPRESSION_START + Joined(target);
      JoinedConcat(target, source);
    }
  }

  // How the first expressions look.
  lemma Rendered(a: string, b: string)
    ensures Render([]) == ""
    ensures Render([a]) == "//wfs:member[(" + a + ")]"
    ensures Render([a, b]) == "//wfs:member[(" + a + ") and (" + b + ")]"
  {
    assert [a, b][..1] == [a];
    assert Joined([a]) == "(" + a + ")";
    assert Joined([a, b]) == "(" + a + ")" + " and " + "(" + b + ")";
    assert Render([a]) == "//wfs:member[(" + a + ")]";
    assert Render([a, b]) == "//wfs:member[(" + a + ") and (" + b + ")]";
  }
}
