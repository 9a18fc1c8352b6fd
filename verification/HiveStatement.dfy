/** An executable HiveQL statement: an immutable holder of the statement text.
    The value is built by the static factory and read back through the getter;
    no normalisation or validation is applied to the text. */
module HiveStatement {

  datatype HiveQueryLanguageStatement = HiveQueryLanguageStatement(statementString: string)
  {
    /** The text the statement was created from. */
    function GetStatementString(): string
    {
      statementString
    }
  }

  /** The static factory: the statement holds exactly the given text. */
  function ForStatementString(statementString: string): (r: HiveQueryLanguageStatement)
    ensures r.GetStatementString() == statementString
  {
    HiveQueryLanguageStatement(statementString)
  }

  /** Every statement value is the one the factory builds from its own text:
      the factory is the only way a statement arises. */
  lemma FactoryBuildsEveryStatement(st: HiveQueryLanguageStatement)
    ensures ForStatementString(st.GetStatementString()) == st
  {
  }

  /** Two statements built by the factory are equal exactly when their texts are. */
  lemma FactoryIsInjective(s: string, t: string)
    ensures ForStatementString(s) == ForStatementString(t) <==> s == t
  {
    if ForStatementString(s) == ForStatementString(t) {
      assert ForStatementString(s).GetStatementString() == ForStatementString(t).GetStatementString();
    }
  }

  /** The texts of a list of statements, in order. */
  function Texts(statements: seq<HiveQueryLanguageStatement>): (texts: seq<string>)
    ensures |texts| == |statements|
    ensures forall k :: 0 <= k < |statements| ==> texts[k] == statements[k].GetStatementString()
  {
    if statements == [] then [] else [statements[0].GetStatementString()] + Texts(statements[1..])
  }
}
