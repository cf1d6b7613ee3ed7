/** The region selection kept in `st.session_state.selected_regions`
    (visualization_app.py lines 94-117).  Each rerun of the script first
    creates the selection if the session has none, then applies the two quick
    action buttons, then rebuilds the selection from the checkbox grid. */
module Session {
  import opened Sequences
  import opened RegionText

  /** The list built by the checkbox loop: the available regions, in their
      order, whose box is ticked.  `answer(region, checked)` is what the box of
      `region` returns when drawn with default `checked` (whether the region was
      selected before); what the user does with the box is outside the model. */
  function CheckedRegions(available: seq<string>, prior: seq<string>, answer: (string, bool) -> bool): (chosen: seq<string>)
    ensures IsSubsequence(chosen, available)
    ensures forall x :: x in chosen <==> x in available && answer(x, x in prior)
  {
    var chosen := Filter(available, x => answer(x, x in prior));
    assert forall x :: x in chosen <==> multiset(chosen)[x] > 0;
    chosen
  }

  /** The checkbox pass keeps the order of the available regions, so a sorted,
      duplicate-free list stays sorted and duplicate-free. */
  lemma CheckedRegionsAscending(available: seq<string>, prior: seq<string>, answer: (string, bool) -> bool)
    requires StrictlyAscending(available)
    ensures StrictlyAscending(CheckedRegions(available, prior, answer))
  {
    SubsequenceKeepsOrder(CheckedRegions(available, prior, answer), available, (a, b) => Less(a, b));
  }

  /** After "Select All Regions", boxes left as drawn give back every region. */
  lemma SelectAllThenUntouched(available: seq<string>, answer: (string, bool) -> bool)
    requires forall x, b :: answer(x, b) == b
    ensures CheckedRegions(available, available, answer) == available
  {
    FilterAllPass(available, x => answer(x, x in available));
  }

  /** Boxes left as drawn reproduce the previous selection once more: a second
      pass changes nothing. */
  lemma UntouchedPassIsStable(available: seq<string>, prior: seq<string>, answer: (string, bool) -> bool)
    requires forall x, b :: answer(x, b) == b
    ensures var once := CheckedRegions(available, prior, answer);
            CheckedRegions(available, once, answer) == once
  {
    var once := CheckedRegions(available, prior, answer);
    FilterCongruent(available, x => answer(x, x in once), x => answer(x, x in prior));
  }

  /** "Clear All Regions" and then ticking one region selects exactly that region. */
  lemma ClearThenTickOne(available: seq<string>, t: string)
    requires StrictlyAscending(available) && t in available
    ensures CheckedRegions(available, [], (x, b) => x == t) == [t]
  {
    var chosen := CheckedRegions(available, [], (x, b) => x == t);
    CheckedRegionsAscending(available, [], (x, b) => x == t);
    assert t in chosen;
    if |chosen| > 1 {
      assert chosen[0] == t && chosen[1] == t;
      LessIrreflexive(t);
      assert false;
    }
  }

  class RegionSelection {
    /** `st.session_state.selected_regions`, once the session has one. */
    var selected: seq<string>
    /** Whether the key "selected_regions" is in the session state. */
    var started: bool

    /** A fresh session, holding no selection yet. */
    constructor ()
      ensures !started && selected == []
    {
      selected := [];
      started := false;
    }

    /** Lines 95-96: the first run selects every available region. */
    method Start(available: seq<string>)
      modifies this
      ensures started
      ensures selected == if old(started) then old(selected) else available
    {
      if !started {
        selected := available;
        started := true;
      }
    }

    /** Line 102, "Select All Regions". */
    method SelectAll(available: seq<string>)
      modifies this
      ensures selected == available && started == old(started)
    {
      selected := available;
    }

    /** Line 105, "Clear All Regions". */
    method ClearAll()
      modifies this
      ensures selected == [] && started == old(started)
    {
      selected := [];
    }

    /** Lines 108-117: one checkbox per available region, ticked by default
        when the region was selected; the ticked regions become the selection. */
    method ApplyCheckboxes(available: seq<string>, answer: (string, bool) -> bool)
      modifies this
      ensures selected == CheckedRegions(available, old(selected), answer)
      ensures started == old(started)
    {
      var prior := selected;
      var chosen: seq<string> := [];
      var i := 0;
      while i < |available|
        invariant 0 <= i <= |available|
        invariant chosen == CheckedRegions(available[..i], prior, answer)
      {
        var region := available[i];
        var checked := region in prior;
        if answer(region, checked) {
          chosen := chosen + [region];
        }
        assert available[..i + 1][..i] == available[..i];
        i := i + 1;
      }
      assert available[..|available|] == available;
      selected := chosen;
    }

    /** One rerun of lines 95-117, with the two buttons' states as inputs; the
        result is the `selected_regions` list that line 120 filters with. */
    method Rerun(available: seq<string>, selectAllClicked: bool, clearAllClicked: bool,
                 answer: (string, bool) -> bool) returns (shown: seq<string>)
      modifies this
      ensures started
      ensures var initial := if old(started) then old(selected) else available;
              var prior := if clearAllClicked then [] else if selectAllClicked then available else initial;
              selected == CheckedRegions(available, prior, answer)
      ensures shown == selected
    {
      Start(available);
      if selectAllClicked {
        SelectAll(available);
      }
      if clearAllClicked {
        ClearAll();
      }
      ApplyCheckboxes(available, answer);
      shown := selected;
    }
  }

  /** A first rerun in which no box is touched shows every available region. */
  method FirstRerunShowsAll(available: seq<string>) returns (shown: seq<string>)
    ensures shown == available
  {
    var session := new RegionSelection();
    shown := session.Rerun(available, false, false, (x, b) => b);
    SelectAllThenUntouched(available, (x, b) => b);
  }
}
