/** The query string of one search request: sort order, page number and tag filters. */
module Search {
  import opened Wrappers
  import opened PyText

  /** `','.join(sorted(c))`: the tag ids in ascending order, comma separated. */
  function FormatTagList(c: set<string>): string {
    Join(Sorted(c), ',')
  }

  /** Python truthiness of an optional set: present and not empty. */
  predicate Truthy(o: Option<set<string>>) {
    o.Some? && o.value != {}
  }

  /**
   * The parameter dictionary: sort method 7 (views, descending) and the page
   * number always; each tag filter only when it is given and not empty.
   */
  method SearchParams(page: int, included: Option<set<string>>, excluded: Option<set<string>>)
    returns (params: map<string, string>)
    ensures forall k :: k in params <==> k == "s" || k == "p" || (k == "tags_inc" && Truthy(included))
                                                            || (k == "tags_exc" && Truthy(excluded))
    ensures params["s"] == "7" && params["p"] == IntToStr(page)
    ensures Truthy(included) ==> params["tags_inc"] == FormatTagList(included.value)
    ensures Truthy(excluded) ==> params["tags_exc"] == FormatTagList(excluded.value)
  {
    params := map["s" := "7", "p" := IntToStr(page)];
    if Truthy(included) {
      params := params["tags_inc" := FormatTagList(included.value)];
    }
    if Truthy(excluded) {
      params := params["tags_exc" := FormatTagList(excluded.value)];
    }
  }

  /**
   * A tag list splits back, at its commas, into the sorted ids, so the server
   * sees exactly the requested set (ids are numeric and hold no comma).
   */
  lemma {:induction false} TagListRoundTrip(c: set<string>)
    requires c != {}
    requires forall x :: x in c ==> ',' !in x
    ensures Split(FormatTagList(c), ',') == Sorted(c)
    ensures forall x :: x in Split(FormatTagList(c), ',') <==> x in c
  {
    var xs := Sorted(c);
    assert xs[0] in c;
    forall i | 0 <= i < |xs| ensures ',' !in xs[i] {
      assert xs[i] in c;
    }
    SplitJoin(xs, ',');
  }

  /** Different non-empty sets of ids give different tag lists. */
  lemma {:induction false} TagListInjective(a: set<string>, b: set<string>)
    requires a != {} && b != {}
    requires forall x :: x in a ==> ',' !in x
    requires forall x :: x in b ==> ',' !in x
    ensures FormatTagList(a) == FormatTagList(b) <==> a == b
  {
    if FormatTagList(a) == FormatTagList(b) {
      TagListRoundTrip(a);
      TagListRoundTrip(b);
      assert forall x :: x in a <==> x in b;
    }
  }
}
