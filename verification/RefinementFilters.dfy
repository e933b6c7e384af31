/** filter.go: the search filter that refinementToFilter makes of a refinement. */
module RefinementFilters {
  import opened Bytes
  import opened Wrappers
  import opened AssertionValue
  import R = Refinements
  import F = Filters
  import FilterText
  import Oids

  /** refinementToFilter: items test objectClass; anything that is no refinement leaves a nil filter. */
  function ToFilter(r: R.Refinement): F.Filter {
    match r
    case And(refs) => F.And(seq(|refs|, i requires 0 <= i < |refs| => ToFilter(refs[i])))
    case Or(refs) => F.Or(seq(|refs|, i requires 0 <= i < |refs| => ToFilter(refs[i])))
    case Not(ref) => F.Not(ToFilter(ref))
    case Item(oid) => F.Assertion(F.Equal, F.OBJECT_CLASS, oid)
    case Invalid => F.Nil
    case Nil => F.DEFAULT
  }

  /** The refinement accepts an entry with these object classes (section 12.3.5 of ITU-T X.501). */
  predicate Accepts(r: R.Refinement, classes: set<bytes>)
    requires R.IsComplete(r)
  {
    match r
    case And(refs) => forall i :: 0 <= i < |refs| ==> Accepts(refs[i], classes)
    case Or(refs) => exists i :: 0 <= i < |refs| && Accepts(refs[i], classes)
    case Not(ref) => !Accepts(ref, classes)
    case Item(oid) => oid in classes
  }

  /** The filter matches an entry of which `holds` says what each item test yields (section 4.5.1.7 of RFC 4511). */
  predicate Matches(f: F.Filter, holds: F.Filter -> bool) {
    match f
    case And(fs) => forall i :: 0 <= i < |fs| ==> Matches(fs[i], holds)
    case Or(fs) => exists i :: 0 <= i < |fs| && Matches(fs[i], holds)
    case Not(g) => !Matches(g, holds)
    case _ => holds(f)
  }

  /** An entry whose tests for object classes are answered by the set. */
  ghost predicate AnswersClasses(holds: F.Filter -> bool, classes: set<bytes>) {
    forall oid: bytes :: holds(F.Assertion(F.Equal, F.OBJECT_CLASS, oid)) <==> oid in classes
  }

  /** A refinement and its filter accept the same sets of object classes. */
  lemma {:induction false} SameObjectClasses(r: R.Refinement, holds: F.Filter -> bool, classes: set<bytes>)
    requires R.IsComplete(r) && AnswersClasses(holds, classes)
    ensures Matches(ToFilter(r), holds) <==> Accepts(r, classes)
    decreases r
  {
    if r.And? || r.Or? {
      var f, fs := ToFilter(r), ToFilter(r).filters;
      forall i | 0 <= i < |r.refs| ensures Matches(fs[i], holds) <==> Accepts(r.refs[i], classes) {
        SameObjectClasses(r.refs[i], holds, classes);
        assert fs[i] == ToFilter(r.refs[i]);
      }
      ListsAgree(r, holds, classes);
    } else if r.Not? {
      SameObjectClasses(r.ref, holds, classes);
    }
  }

  lemma ListsAgree(r: R.Refinement, holds: F.Filter -> bool, classes: set<bytes>)
    requires (r.And? || r.Or?) && R.IsComplete(r)
    requires forall i :: 0 <= i < |r.refs| ==>
      0 <= i < |ToFilter(r).filters| && (Matches(ToFilter(r).filters[i], holds) <==> Accepts(r.refs[i], classes))
    ensures Matches(ToFilter(r), holds) <==> Accepts(r, classes)
  {
    var fs, refs := ToFilter(r).filters, r.refs;
    assert |fs| == |refs|;
    hide ToFilter;
    if r.Or? {
      if Matches(ToFilter(r), holds) {
        var i :| 0 <= i < |fs| && Matches(fs[i], holds);
        assert Accepts(refs[i], classes);
      }
      if Accepts(r, classes) {
        var i :| 0 <= i < |refs| && Accepts(refs[i], classes);
        assert Matches(fs[i], holds);
      }
    }
  }

  // ----- the filter as text -----

  /** No "not" stands directly over an empty "and" or "or". */
  predicate NoEmptyUnderNot(r: R.Refinement) {
    match r
    case And(refs) => forall i :: 0 <= i < |refs| ==> NoEmptyUnderNot(refs[i])
    case Or(refs) => forall i :: 0 <= i < |refs| ==> NoEmptyUnderNot(refs[i])
    case Not(ref) => !((ref.And? || ref.Or?) && ref.refs == []) && NoEmptyUnderNot(ref)
    case _ => true
  }

  lemma ObjectClassIsName()
    ensures FilterText.IsName(F.OBJECT_CLASS)
  {
    var x := F.OBJECT_CLASS;
    LettersAreName(x);
  }

  lemma LettersAreName(x: bytes)
    requires x != [] && forall i :: 0 <= i < |x| ==> IsAlpha(x[i])
    ensures FilterText.IsName(x)
  {
    FilterText.BareName(x);
  }

  lemma {:induction false} PlainIsAssertionText(x: bytes)
    requires forall i :: 0 <= i < |x| ==> R.IsItemChar(x[i])
    ensures IsAssertionText(x) && IsAscii(x)
  {
    if x != [] {
      PlainIsAssertionText(x[1..]);
      assert x[0] < 128 && forall i :: 0 < i < |x| ==> x[i] == x[1..][i - 1];
    }
  }

  lemma ItemsAreValues(x: bytes)
    requires R.IsItem(x)
    ensures FilterText.IsValue(x) && Escape(x) == x && IsAscii(x)
  {
    hide R.IsItem;
    R.ItemIsTaken(x);
    PlainIsAssertionText(x);
    EscapeKeepsExactlyAscii(x);
  }

  lemma {:induction false} FilterIsWellFormed(r: R.Refinement)
    requires R.WellFormed(r)
    ensures FilterText.WellFormed(ToFilter(r)) && FilterText.HasAsciiValues(ToFilter(r)) && R.IsComplete(r)
    decreases r
  {
    hide FilterText.IsName, FilterText.IsValue, R.IsItem, IsAscii;
    if r.And? || r.Or? {
      forall i | 0 <= i < |r.refs|
        ensures FilterText.WellFormed(ToFilter(r.refs[i])) && FilterText.HasAsciiValues(ToFilter(r.refs[i]))
        ensures R.IsComplete(r.refs[i])
      {
        FilterIsWellFormed(r.refs[i]);
      }
    } else if r.Not? {
      FilterIsWellFormed(r.ref);
    } else {
      ObjectClassIsName();
      ItemsAreValues(r.oid);
    }
  }

  /** How much text the filter of a refinement takes up. */
  lemma {:induction false} TextLength(r: R.Refinement)
    requires R.WellFormed(r)
    ensures |F.Print(ToFilter(r))| < 5 <==> (r.And? || r.Or?) && r.refs == []
    ensures |F.Print(ToFilter(r))| >= 3
    decreases r
  {
    hide R.IsItem, Escape;
    if r.And? || r.Or? {
      var fs := ToFilter(r).filters;
      if r.refs != [] {
        TextLength(r.refs[0]);
        assert fs[0] == ToFilter(r.refs[0]);
        assert F.PrintAll(fs) == F.Print(fs[0]) + F.PrintAll(fs[1..]);
      }
    } else if r.Not? {
      TextLength(r.ref);
    }
  }

  lemma {:induction false} SurvivesWithoutEmptyUnderNot(r: R.Refinement)
    requires R.WellFormed(r)
    ensures FilterText.Survives(ToFilter(r)) <==> NoEmptyUnderNot(r)
    decreases r
  {
    hide F.Print, R.IsItem, FilterText.IsValue;
    if r.And? || r.Or? {
      var fs := ToFilter(r).filters;
      forall i | 0 <= i < |r.refs| ensures FilterText.Survives(fs[i]) <==> NoEmptyUnderNot(r.refs[i]) {
        SurvivesWithoutEmptyUnderNot(r.refs[i]);
        assert fs[i] == ToFilter(r.refs[i]);
      }
    } else if r.Not? {
      TextLength(r.ref);
      SurvivesWithoutEmptyUnderNot(r.ref);
    } else {
      ItemsAreValues(r.oid);
    }
  }

  /**
    From the text of a refinement to the filter and through its text: the refinement is read back, and its filter
    is read back exactly when no "not" stands over an empty list.
   */
  lemma Pipeline(r: R.Refinement)
    requires R.WellFormed(r)
    ensures R.Parse(R.Print(r)) == Success(r)
    ensures F.Parse(F.Print(ToFilter(r))) == Success(ToFilter(r)) <==> NoEmptyUnderNot(r)
  {
    hide *;
    R.PrintParseRoundTrip(r);
    FilterIsWellFormed(r);
    SurvivesWithoutEmptyUnderNot(r);
    FilterText.AsciiFiltersComeBack(ToFilter(r));
  }
}
