/**
 * The tag dictionary read from the search page's genre filter (lower-cased
 * option text to numeric tag id), and the lookup that turns the tag names
 * given on the command line into tag ids.
 */
module Tags {
  import opened Wrappers
  import opened PyText

  /** One `<option>` of the genre filter: its text and its `value` attribute. */
  datatype TagOption = TagOption(text: string, value: string)

  /** The options of all `<optgroup>`s, in document order. */
  function Flatten(groups: seq<seq<TagOption>>): (r: seq<TagOption>)
    ensures forall o :: o in r <==> exists g :: 0 <= g < |groups| && o in groups[g]
  {
    if groups == [] then []
    else Flatten(groups[..|groups| - 1]) + groups[|groups| - 1]
  }

  /**
   * The dictionary left behind by assigning `tags[o.text.lower()] = o.value`
   * for every option, one after another: a later option with the same
   * lower-cased text overwrites an earlier one.
   */
  function TagsOf(opts: seq<TagOption>): map<string, string> {
    if opts == [] then map[]
    else TagsOf(opts[..|opts| - 1])[Lower(opts[|opts| - 1].text) := opts[|opts| - 1].value]
  }

  /** The two nested loops that fill the dictionary, group by group and option by option. */
  method GetTags(groups: seq<seq<TagOption>>) returns (tags: map<string, string>)
    ensures tags == TagsOf(Flatten(groups))
  {
    tags := map[];
    var g := 0;
    while g < |groups|
      invariant 0 <= g <= |groups|
      invariant tags == TagsOf(Flatten(groups[..g]))
    {
      var options := groups[g];
      var i := 0;
      assert Flatten(groups[..g]) + options[..i] == Flatten(groups[..g]);
      while i < |options|
        invariant 0 <= i <= |options|
        invariant tags == TagsOf(Flatten(groups[..g]) + options[..i])
      {
        var option := options[i];
        tags := tags[Lower(option.text) := option.value];
        ghost var done := Flatten(groups[..g]) + options[..i + 1];
        assert done[..|done| - 1] == Flatten(groups[..g]) + options[..i];
        i := i + 1;
      }
      assert groups[..g + 1][..g] == groups[..g];
      assert options[..i] == options;
      assert Flatten(groups[..g + 1]) == Flatten(groups[..g]) + options;
      g := g + 1;
    }
    assert groups[..g] == groups;
  }

  /** The keys are exactly the lower-cased texts of the options. */
  lemma {:induction false} TagsOfKeys(opts: seq<TagOption>, k: string)
    ensures k in TagsOf(opts) <==> exists i :: 0 <= i < |opts| && Lower(opts[i].text) == k
  {
    if opts != [] {
      var init := opts[..|opts| - 1];
      TagsOfKeys(init, k);
      if exists i :: 0 <= i < |init| && Lower(init[i].text) == k {
        var i :| 0 <= i < |init| && Lower(init[i].text) == k;
        assert opts[i] == init[i];
      }
      if exists i :: 0 <= i < |opts| && Lower(opts[i].text) == k {
        var i :| 0 <= i < |opts| && Lower(opts[i].text) == k;
        if i < |init| {
          assert init[i] == opts[i];
        }
      }
    }
  }

  /** Every key is already in lower case, as the docstring of the source promises. */
  lemma {:induction false} TagsOfKeysLowercase(opts: seq<TagOption>, k: string)
    requires k in TagsOf(opts)
    ensures Lower(k) == k
  {
    TagsOfKeys(opts, k);
    var i :| 0 <= i < |opts| && Lower(opts[i].text) == k;
    LowerIdempotent(opts[i].text);
  }

  /** The value of a key is the value of the last option whose lower-cased text is that key. */
  lemma {:induction false} TagsOfLastWins(opts: seq<TagOption>, i: int)
    requires 0 <= i < |opts|
    requires forall j :: i < j < |opts| ==> Lower(opts[j].text) != Lower(opts[i].text)
    ensures Lower(opts[i].text) in TagsOf(opts)
    ensures TagsOf(opts)[Lower(opts[i].text)] == opts[i].value
  {
    if i < |opts| - 1 {
      var init := opts[..|opts| - 1];
      assert init[i] == opts[i];
      forall j | i < j < |init| ensures Lower(init[j].text) != Lower(init[i].text) {
        assert init[j] == opts[j];
      }
      TagsOfLastWins(init, i);
    }
  }

  /**
   * `{tags[s.lower()] for s in names}`: the set of ids, or the first
   * lower-cased name that is not a key (Python raises `KeyError` for it).
   */
  function LookupAll(names: seq<string>, tags: map<string, string>): (r: Result<set<string>, string>)
    ensures r.Ok? <==> forall i :: 0 <= i < |names| ==> Lower(names[i]) in tags
    ensures r.Ok? ==> forall v :: v in r.value <==> exists i :: 0 <= i < |names| && Lower(names[i]) in tags && tags[Lower(names[i])] == v
    ensures r.Err? ==> exists i :: 0 <= i < |names| && r.error == Lower(names[i]) && r.error !in tags && forall j :: 0 <= j < i ==> Lower(names[j]) in tags
  {
    if names == [] then Ok({})
    else
      var k := Lower(names[0]);
      if k !in tags then Err(k)
      else match LookupAll(names[1..], tags)
        case Err(e) => Err(e)
        case Ok(vs) => Ok({tags[k]} + vs)
  }

  /** `select_tags`: no names (absent or empty list) select nothing; otherwise the set of their ids. */
  function SelectTags(o: Option<seq<string>>, tags: map<string, string>): (r: Result<Option<set<string>>, string>)
    ensures r == Ok(None) <==> o.None? || o.value == []
    ensures r.Err? <==> o.Some? && exists i :: 0 <= i < |o.value| && Lower(o.value[i]) !in tags
    ensures r.Ok? && r.value.Some? ==> r.value.value != {} && forall v :: v in r.value.value <==> exists i :: 0 <= i < |o.value| && Lower(o.value[i]) in tags && tags[Lower(o.value[i])] == v
  {
    if o.None? || o.value == [] then Ok(None)
    else match LookupAll(o.value, tags)
      case Err(e) => Err(e)
      case Ok(vs) => Ok(Some(vs))
  }

  /**
   * Names taken from the dictionary's own keys (the command line only
   * accepts those) always select; the lookup cannot raise.
   */
  lemma {:induction false} SelectKnownNames(names: seq<string>, opts: seq<TagOption>)
    requires forall i :: 0 <= i < |names| ==> names[i] in TagsOf(opts)
    ensures SelectTags(Some(names), TagsOf(opts)).Ok?
  {
    forall i | 0 <= i < |names| ensures Lower(names[i]) in TagsOf(opts) {
      TagsOfKeysLowercase(opts, names[i]);
    }
  }
}
