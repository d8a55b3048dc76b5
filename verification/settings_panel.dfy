/** The avatar settings panel (components/SettingsPanel.tsx): the edits it
    makes to the customization being drafted, and the save flow. */
module SettingsPanel {
  import opened Wrappers
  import opened AvatarTypes

  // ---------------------------------------------------------------------------
  // Accessory toggle

  /** `prev.accessories.filter((a) => a !== accessory)`. */
  function Without(accs: seq<string>, a: string): (r: seq<string>)
    ensures a !in r
    ensures forall x :: x != a ==> (x in r <==> x in accs)
  {
    if accs == [] then []
    else if accs[0] == a then Without(accs[1..], a)
    else [accs[0]] + Without(accs[1..], a)
  }

  /** `sub` is `s` with some elements left out, order kept. */
  predicate IsSubsequence<T(==)>(sub: seq<T>, s: seq<T>) {
    if sub == [] then true
    else if s == [] then false
    else if sub[0] == s[0] then IsSubsequence(sub[1..], s[1..])
    else IsSubsequence(sub, s[1..])
  }

  /** `toggleAccessory`: remove the name if the list includes it, append it
      otherwise. */
  function Toggle(accs: seq<string>, a: string): seq<string> {
    if a in accs then Without(accs, a) else accs + [a]
  }

  /** Removing keeps every other name with its multiplicity and in its order,
      and drops every occurrence of the toggled one. */
  lemma {:induction false} WithoutKeepsOthersInOrder(accs: seq<string>, a: string)
    ensures IsSubsequence(Without(accs, a), accs)
    ensures forall x :: multiset(Without(accs, a))[x] == (if x == a then 0 else multiset(accs)[x])
  {
    if accs != [] {
      WithoutKeepsOthersInOrder(accs[1..], a);
      assert accs == [accs[0]] + accs[1..];
      if accs[0] != a {
        var w := [accs[0]] + Without(accs[1..], a);
        assert w[1..] == Without(accs[1..], a);
      }
    }
  }

  lemma ToggleRemovesEveryOccurrence(accs: seq<string>, a: string)
    requires a in accs
    ensures a !in Toggle(accs, a)
    ensures IsSubsequence(Toggle(accs, a), accs)
    ensures forall x :: x != a ==> multiset(Toggle(accs, a))[x] == multiset(accs)[x]
  {
    WithoutKeepsOthersInOrder(accs, a);
  }

  lemma ToggleAppendsAbsent(accs: seq<string>, a: string)
    requires a !in accs
    ensures Toggle(accs, a) == accs + [a]
    ensures Toggle(accs, a)[|accs|] == a
  {
  }

  /** After a toggle the name is present exactly when it was absent before;
      every other name keeps its membership. */
  lemma ToggleFlipsMembership(accs: seq<string>, a: string)
    ensures a in Toggle(accs, a) <==> a !in accs
    ensures forall x :: x != a ==> (x in Toggle(accs, a) <==> x in accs)
  {
  }

  lemma {:induction false} WithoutAbsent(accs: seq<string>, a: string)
    requires a !in accs
    ensures Without(accs, a) == accs
  {
    if accs != [] {
      WithoutAbsent(accs[1..], a);
      assert accs == [accs[0]] + accs[1..];
    }
  }

  lemma {:induction false} WithoutAppend(accs: seq<string>, b: seq<string>, a: string)
    ensures Without(accs + b, a) == Without(accs, a) + Without(b, a)
  {
    if accs != [] {
      WithoutAppend(accs[1..], b, a);
      assert (accs + b)[1..] == accs[1..] + b;
    } else {
      assert accs + b == b;
    }
  }

  /** Toggling a name that is not selected, twice, restores the list. */
  lemma ToggleTwiceRestores(accs: seq<string>, a: string)
    requires a !in accs
    ensures Toggle(Toggle(accs, a), a) == accs
  {
    WithoutAppend(accs, [a], a);
    WithoutAbsent(accs, a);
    assert Without([a], a) == [];
  }

  // ---------------------------------------------------------------------------
  // Single-field edits: each preset or style button replaces one field.

  function ChooseBodyColor(c: Customization, value: string): (r: Customization)
    ensures r.bodyColor == value
    ensures r.skinColor == c.skinColor && r.style == c.style && r.accessories == c.accessories
  {
    c.(bodyColor := value)
  }

  function ChooseSkinColor(c: Customization, value: string): (r: Customization)
    ensures r.skinColor == value
    ensures r.bodyColor == c.bodyColor && r.style == c.style && r.accessories == c.accessories
  {
    c.(skinColor := value)
  }

  function ChooseStyle(c: Customization, style: Style): (r: Customization)
    ensures r.style == style.Name() && ParseStyle(r.style) == Some(style)
    ensures r.bodyColor == c.bodyColor && r.skinColor == c.skinColor && r.accessories == c.accessories
  {
    ParseStyleName(style);
    c.(style := style.Name())
  }

  function ToggleAccessory(c: Customization, a: string): (r: Customization)
    ensures r.accessories == Toggle(c.accessories, a)
    ensures r.bodyColor == c.bodyColor && r.skinColor == c.skinColor && r.style == c.style
  {
    c.(accessories := Toggle(c.accessories, a))
  }

  // ---------------------------------------------------------------------------
  // Save

  /** How the awaited `onSave(settings)` call ended. */
  datatype SaveOutcome = Completed | Threw

  /** The panel after `handleSave` has finished. */
  datatype AfterSave = AfterSave(
    closed: bool,        // `onClose()` was called
    isSaving: bool,
    alerted: bool,       // the failure alert was shown
    submitted: Option<Customization>)  // what `onSave` was called with

  /** `handleSave`. `onSave` is `None` when the parent passed no handler (a
      guest): calling it throws before anything is submitted. */
  function HandleSave(settings: Customization, onSave: Option<SaveOutcome>): (r: AfterSave)
    ensures r.closed <==> onSave == Some(Completed)
    ensures r.alerted <==> !r.closed
    ensures !r.isSaving
    ensures r.submitted.Some? <==> onSave.Some?
    ensures r.submitted.Some? ==> r.submitted.value == settings
  {
    match onSave
    case None => AfterSave(false, false, true, None)
    case Some(Completed) => AfterSave(true, false, false, Some(settings))
    case Some(Threw) => AfterSave(false, false, true, Some(settings))
  }
}
