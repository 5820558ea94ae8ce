/** Tables abstracted to their index: each row maps index-level names
    (model, scenario, region, variable, unit, ...) to string labels.
    The numeric year columns are not part of the model. */
module Tables {

  import opened Wrappers

  /** The name of an index level. */
  type Dim = string

  /** A label on one index level. */
  type Label = string

  /** One index entry of a frame: the label it carries on each level. */
  type Row = map<Dim, Label>

  /** A frame: the names of its index levels, in order, and its rows. */
  datatype Table = Table(names: seq<Dim>, rows: seq<Row>)

  /** The labels a table carries on one index level (`index.unique(level)` as a set). */
  function Labels(t: Table, d: Dim): set<Label>
  {
    set r | r in t.rows && d in r :: r[d]
  }

  /** The label of a row on a level, if the row has that level. */
  function Lookup(r: Row, d: Dim): Option<Label>
  {
    if d in r then Some(r[d]) else None
  }

  /** No element occurs twice. */
  predicate Distinct<X(==)>(s: seq<X>)
  {
    forall i, j :: 0 <= i < j < |s| ==> s[i] != s[j]
  }

  /** The distinct elements of `s` in order of first appearance, as pandas'
      `unique` returns them. */
  function Unique<X(==,!new)>(s: seq<X>): (u: seq<X>)
    ensures Distinct(u)
    ensures forall x :: x in u <==> x in s
    ensures |u| <= |s|
    ensures s != [] ==> u != [] && u[0] == s[0]
  {
    if s == [] then []
    else
      var u := Unique(s[..|s| - 1]);
      assert forall x :: x in s <==> x in s[..|s| - 1] || x == s[|s| - 1];
      if s[|s| - 1] in u then u else u + [s[|s| - 1]]
  }

  /** `Unique` keeps first-appearance order: of two elements it keeps, the
      earlier one occurs in `s` before the later one first does. */
  lemma {:induction false} UniqueInOrder<X(!new)>(s: seq<X>)
    ensures forall i, j :: 0 <= i < j < |Unique(s)| ==>
              exists p :: 0 <= p < |s| && s[p] == Unique(s)[i] && Unique(s)[j] !in s[..p]
  {
    if s != [] {
      var n := |s| - 1;
      var init := s[..n];
      UniqueInOrder(init);
      var u' := Unique(init);
      assert forall k :: 0 <= k < |u'| ==> Unique(s)[k] == u'[k];
      forall i, j | 0 <= i < j < |Unique(s)|
        ensures exists p :: 0 <= p < |s| && s[p] == Unique(s)[i] && Unique(s)[j] !in s[..p]
      {
        var u := Unique(s);
        if j < |u'| {
          var p :| 0 <= p < |init| && init[p] == u'[i] && u'[j] !in init[..p];
          assert s[..p] == init[..p] && s[p] == init[p];
        } else {
          assert u[j] == s[n] && s[n] !in u';
          assert u'[i] in init;
          var p :| 0 <= p < |init| && init[p] == u'[i];
          assert s[..p] == init[..p] && s[p] == init[p];
          assert forall x :: x in init[..p] ==> x in init;
        }
      }
    } else {
      assert |Unique(s)| == 0;
    }
  }

  /** At most one distinct element remains exactly when all elements agree. */
  lemma UniqueAtMostOne<X(!new)>(s: seq<X>)
    ensures |Unique(s)| <= 1 <==> forall i, j :: 0 <= i < |s| && 0 <= j < |s| ==> s[i] == s[j]
  {
    var u := Unique(s);
    if |u| <= 1 {
      forall i, j | 0 <= i < |s| && 0 <= j < |s| ensures s[i] == s[j] {
        assert s[i] in u && s[j] in u;
      }
    } else {
      assert u[0] in s && u[1] in s;
      var i :| 0 <= i < |s| && s[i] == u[0];
      var j :| 0 <= j < |s| && s[j] == u[1];
      assert s[i] != s[j];
    }
  }

}
