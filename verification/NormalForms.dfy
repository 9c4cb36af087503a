/** Normal forms evaluate to themselves. */
module NormalForms {
  import opened Hir
  import opened Evaluation

  // ---------------------------------------------------------------------------
  // Normal forms
  // ---------------------------------------------------------------------------

  /** Evaluating a normal form again returns it and touches no part of the state. */
  lemma {:induction false} NormalIsFixed(c: Config, s: State, e: Value)
    requires IsNormal(e)
    ensures Eval(c, s, e) == (s, Ok(e))
    decreases Size(e), 1
  {
    if IsAggregate(e) {
      var vs := Components(e);
      NormalListIsFixed(c, s, vs);
      RebuildSame(e);
    }
  }

  lemma {:induction false} NormalListIsFixed(c: Config, s: State, es: seq<Value>)
    requires AllNormal(es)
    ensures EvalList(c, s, es) == (s, AllOk(es))
    decreases ValuesSize(es), 0
  {
    if es != [] {
      assert es == [es[0]] + es[1..];
      NormalIsFixed(c, s, es[0]);
      NormalListIsFixed(c, s, es[1..]);
    }
  }

  lemma {:induction false} RebuildSame(e: Value)
    requires IsAggregate(e) && IsNormal(e)
    ensures Rebuild(e, Components(e)) == e
  {
    if e.StructObject? {
      assert WithValues(e.fields, FieldValues(e.fields)) == e.fields;
    }
  }

  /** The second evaluation inside a field access changes neither the value found nor the state. */
  lemma {:induction false} FieldAccessReadsField(c: Config, s: State, expr: Value, x: Name)
    ensures
      var (s1, v) := Eval(c, s, expr);
      EvalFieldAccess(c, s, expr, x) == (s1, if v.Ok? then FieldOf(v.value, x) else v)
  {
    hide Evaluation.Eval;
    var (s1, v) := Eval(c, s, expr);
    if v.Ok? && FieldOf(v.value, x).Ok? {
      NormalIsFixed(c, s1, FieldOf(v.value, x).value);
    }
  }

  /** The same for an element selected by index. */
  lemma {:induction false} IndexAccessReadsElement(c: Config, s: State, collection: Value, index: Value,
                                                   s1: State, v: Normal, s2: State, i: Normal)
    requires Eval(c, s, collection) == (s1, Ok(v))
    requires Eval(c, s1, index) == (s2, Ok(i))
    requires ElementAt(v, i).Ok?
    ensures EvalIndexAccess(c, s, collection, index) == (s2, ElementAt(v, i))
  {
    hide Evaluation.Eval, Evaluation.ElementAt, Hir.IsNormal;
    NormalIsFixed(c, s2, ElementAt(v, i).value);
  }
}
