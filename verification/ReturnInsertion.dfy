/** Function bodies are made to end in a `return` when they are lowered; doing so changes no call. */
module ReturnInsertion {
  import opened Wrappers
  import opened Hir
  import opened Evaluation

  /** The body with a return at its end, or nothing when none can be inserted. */
  function EnsureReturn(body: seq<Element>, returnsUnit: bool): Option<seq<Element>> {
    if body != [] && body[|body| - 1].Expr? then
      var last := body[|body| - 1].value;
      if last.Return? then Some(body) else Some(body[..|body| - 1] + [Expr(Return(last))])
    else if returnsUnit then Some(body + [Expr(Return(Unit))])
    else None
  }

  /** The list of elements a lowered function owns while it is being completed. */
  class LoweredBody {
    var elements: seq<Element>

    constructor (elements: seq<Element>)
      ensures this.elements == elements
    {
      this.elements := elements;
    }

    /** Replaces or appends the last element in place; reports false, changing nothing, when the return is missing. */
    method EnsureReturnInBody(returnsUnit: bool) returns (ok: bool)
      modifies this
      ensures ok == EnsureReturn(old(elements), returnsUnit).Some?
      ensures elements == if ok then EnsureReturn(old(elements), returnsUnit).value else old(elements)
    {
      var n := |elements|;
      if n > 0 && elements[n - 1].Expr? {
        if !elements[n - 1].value.Return? {
          elements := elements[n - 1 := Expr(Return(elements[n - 1].value))];
          assert elements == old(elements)[..n - 1] + [Expr(Return(old(elements)[n - 1].value))];
        }
        ok := true;
      } else if returnsUnit {
        elements := elements + [Expr(Return(Unit))];
        ok := true;
      } else {
        ok := false;
      }
    }
  }

  /** Insertion succeeds exactly for bodies that end in an expression and for functions returning unit,
      and the inserted body then ends in a return. */
  lemma {:induction false} InsertedBodyEndsInReturn(body: seq<Element>, returnsUnit: bool)
    ensures var r := EnsureReturn(body, returnsUnit);
      && (r.Some? <==> returnsUnit || (body != [] && body[|body| - 1].Expr?))
      && (r.Some? ==> r.value != [] && r.value[|r.value| - 1].Expr? && r.value[|r.value| - 1].value.Return?
                      && EnsureReturn(r.value, returnsUnit) == r)
  {
  }

  lemma {:induction false} EvalElementsStep(c: Config, s: State, es: seq<Element>, last: Normal)
    requires es != []
    ensures EvalElements(c, s, es, last) ==
            var (s1, v) := EvalElement(c, s, es[0]);
            if v.Err? then (s1, v) else EvalElements(c, s1, es[1..], v.value)
  {
  }

  lemma {:induction false} SingleElement(c: Config, s: State, e: Element, last: Normal)
    ensures EvalElements(c, s, [e], last) == EvalElement(c, s, e)
  {
    hide Evaluation.EvalElement;
    var (s1, v) := EvalElement(c, s, e);
    assert [e][1..] == [];
    EvalElementsStep(c, s, [e], last);
    if v.Ok? {
      assert EvalElements(c, s1, [], v.value) == (s1, v);
    }
  }

  lemma {:induction false} ReturnStep(c: Config, s: State, e: Value)
    ensures Eval(c, s, Return(e)).0 == Eval(c, s, e).0
    ensures CatchReturn(Eval(c, s, Return(e)).1) == CatchReturn(Eval(c, s, e).1)
  {
  }

  lemma {:induction false} CompletedTail(body: seq<Element>, returnsUnit: bool)
    requires EnsureReturn(body, returnsUnit).Some? && body != []
    requires |body| > 1 || !body[0].Expr?
    ensures EnsureReturn(body[1..], returnsUnit) == Some(EnsureReturn(body, returnsUnit).value[1..])
  {
    var n := |body|;
    var completed := EnsureReturn(body, returnsUnit).value;
    if body[n - 1].Expr? {
      var last := body[n - 1].value;
      assert body[1..][n - 2] == body[n - 1];
      assert body[..n - 1][1..] == body[1..][..n - 2];
      assert (body[..n - 1] + [Expr(Return(last))])[1..] == body[1..][..n - 2] + [Expr(Return(last))];
    } else {
      assert completed[1..] == body[1..] + [Expr(Return(Unit))];
      assert n > 1 ==> body[1..][n - 2] == body[n - 1];
    }
  }

  lemma {:induction false} LocalYieldsUnit(c: Config, s: State, e: Element)
    ensures var r := EvalElement(c, s, e).1; e.Local? && r.Ok? ==> r.value == Unit
  {
  }

  /** Running the completed body gives the same state and, after the call catches the return, the same result. */
  lemma {:induction false} InsertedReturnIsTransparent(c: Config, s: State, body: seq<Element>, returnsUnit: bool, last: Normal)
    requires EnsureReturn(body, returnsUnit).Some?
    requires body == [] ==> last == Unit
    ensures
      var (t, r) := EvalElements(c, s, EnsureReturn(body, returnsUnit).value, last);
      (t, CatchReturn(r)) == (EvalElements(c, s, body, last).0, CatchReturn(EvalElements(c, s, body, last).1))
    decreases |body|
  {
    hide Evaluation.Eval;
    var completed := EnsureReturn(body, returnsUnit).value;
    if body == [] {
      assert completed == [Expr(Return(Unit))];
      SingleElement(c, s, completed[0], last);
      ReturnStep(c, s, Unit);
      UnitStep(c, s);
    } else if |body| == 1 && body[0].Expr? {
      SingleElement(c, s, body[0], last);
      SingleElement(c, s, completed[0], last);
      assert body == [body[0]] && completed == [completed[0]];
      ReturnStep(c, s, body[0].value);
    } else {
      var (s1, v) := EvalElement(c, s, body[0]);
      assert completed[0] == body[0];
      CompletedTail(body, returnsUnit);
      LocalYieldsUnit(c, s, body[0]);
      EvalElementsStep(c, s, body, last);
      EvalElementsStep(c, s, completed, last);
      if v.Ok? {
        InsertedReturnIsTransparent(c, s1, body[1..], returnsUnit, v.value);
      }
    }
  }

  lemma {:induction false} UnitStep(c: Config, s: State)
    ensures Eval(c, s, Unit) == (s, Ok(Unit))
  {
  }
}
