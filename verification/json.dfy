/** The JSON values that the handlers put under "results" in a response body. */
module Json {
  import opened Wrappers

  /** A JSON value; an object is a dictionary from keys to values. */
  datatype Json =
    | Null
    | Bool(b: bool)
    | Int(n: int)
    | Str(s: string)
    | Arr(items: seq<Json>)
    | Obj(fields: map<string, Json>)

  /** A nullable text column: `None` is rendered as JSON null, and reads back as the same column value. */
  function OptStr(o: Option<string>): (j: Json)
    ensures ParseOptStr(j) == Some(o)
  {
    match o
    case None => Null
    case Some(s) => Str(s)
  }

  /** Reads a nullable text column back: null or a string; anything else is not such a column. */
  function ParseOptStr(j: Json): Option<Option<string>> {
    match j
    case Null => Some(None)
    case Str(s) => Some(Some(s))
    case _ => None
  }

  /** A list of integers rendered as a JSON array, element by element. */
  function Ints(xs: seq<int>): (r: seq<Json>)
    ensures |r| == |xs|
    ensures forall y :: y in r <==> y.Int? && y.n in xs
  {
    var r := seq(|xs|, k requires 0 <= k < |xs| => Int(xs[k]));
    forall y | y in r ensures y.Int? && y.n in xs {
      var k :| 0 <= k < |r| && r[k] == y;
      assert xs[k] == y.n;
    }
    forall x | x in xs ensures Int(x) in r {
      var k :| 0 <= k < |xs| && xs[k] == x;
      assert r[k] == Int(x);
    }
    r
  }

  /**
    Membership in a list rendered element by element: the rendered list holds exactly
    the renderings of the listed rows.
  */
  lemma MappedMembers<A>(f: A --> Json, xs: seq<A>, r: seq<Json>)
    requires forall a :: a in xs ==> f.requires(a)
    requires |r| == |xs| && forall k :: 0 <= k < |xs| ==> r[k] == f(xs[k])
    ensures forall x :: x in r <==> exists a :: a in xs && x == f(a)
  {
    forall x | x in r ensures exists a :: a in xs && x == f(a) {
      var k :| 0 <= k < |r| && r[k] == x;
      assert xs[k] in xs;
    }
    forall a | a in xs ensures f(a) in r {
      var k :| 0 <= k < |xs| && xs[k] == a;
      assert r[k] == f(a);
    }
  }
}
