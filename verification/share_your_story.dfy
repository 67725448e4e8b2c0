/** The share-your-story wizard: the form state, the tag editor, the
    required-field check and the three steps (write, media, published). */
module ShareYourStory {
  import opened Base
  import opened Text
  import opened Seqs

  /** The title input's `maxLength`. */
  const MaxTitleLength := 100

  /** At most this many tags; the tag input disappears at the limit. */
  const MaxTags := 5

  datatype StoryForm = StoryForm(
    title: string,
    content: string,
    tags: seq<string>,
    newTag: string,
    isSubmitting: bool,
    isPublished: bool)

  const InitialStoryForm := StoryForm("", "", [], "", false, false)

  /** The wizard: the form and the current step, 1 (write), 2 (media) or
      3 (published). */
  datatype Wizard = Wizard(form: StoryForm, step: int)

  const InitialWizard := Wizard(InitialStoryForm, 1)

  /** The required fields: title and content, each with something other
      than whitespace. Continue is enabled and Publish proceeds exactly
      when this holds. */
  predicate HasRequiredFields(f: StoryForm) {
    Trim(f.title) != "" && Trim(f.content) != ""
  }

  /** The text fields the shared change handler writes, keyed by the input's
      `name`. */
  datatype TextField = Title | Content

  /** `handleInputChange`: the named field takes the input's value; the
      browser cuts the title at its maximum length. */
  function HandleInputChange(f: StoryForm, field: TextField, value: string): (g: StoryForm)
    ensures field == Title ==> g.title <= value && |g.title| == Min(|value|, MaxTitleLength) && g.content == f.content
    ensures field == Content ==> g.content == value && g.title == f.title
    ensures g.tags == f.tags && g.newTag == f.newTag
    ensures g.isSubmitting == f.isSubmitting && g.isPublished == f.isPublished
  {
    match field
    case Title => f.(title := value[..Min(|value|, MaxTitleLength)])
    case Content => f.(content := value)
  }

  function Min(a: int, b: int): int {
    if a <= b then a else b
  }

  /** `addTag` on a key press: Enter with a non-blank draft adds the trimmed
      draft and clears the draft, unless that tag is already there or five
      tags exist; anything else changes nothing. */
  function AddTag(f: StoryForm, key: string): (g: StoryForm)
    ensures g.title == f.title && g.content == f.content
    ensures g.isSubmitting == f.isSubmitting && g.isPublished == f.isPublished
    ensures g != f <==> key == "Enter" && Trim(f.newTag) != "" && Trim(f.newTag) !in f.tags && |f.tags| < MaxTags
    ensures g != f ==> g.tags == f.tags + [Trim(f.newTag)] && g.newTag == ""
  {
    var tag := Trim(f.newTag);
    if key == "Enter" && tag != "" && tag !in f.tags && |f.tags| < MaxTags then
      assert f.tags + [tag] != f.tags by { assert |f.tags + [tag]| != |f.tags|; }
      f.(tags := f.tags + [tag], newTag := "")
    else f
  }

  function NotTag(tag: string): string -> bool { (t: string) => t != tag }

  /** `removeTag`: every copy of the tag goes, the rest keep their order. */
  function RemoveTag(f: StoryForm, tag: string): (g: StoryForm)
    ensures tag !in g.tags
    ensures forall t :: t in g.tags <==> t in f.tags && t != tag
    ensures IsSubseq(g.tags, f.tags)
    ensures g.title == f.title && g.content == f.content && g.newTag == f.newTag
    ensures g.isSubmitting == f.isSubmitting && g.isPublished == f.isPublished
  {
    f.(tags := Filter(f.tags, NotTag(tag)))
  }

  /** Removing a tag just added gives the tags back as they were. */
  lemma RemoveUndoesAdd(f: StoryForm, key: string)
    requires AddTag(f, key) != f
    ensures RemoveTag(AddTag(f, key), Trim(f.newTag)).tags == f.tags
  {
    var tag := Trim(f.newTag);
    FilterSnoc(f.tags, tag, NotTag(tag));
    FilterAll(f.tags, NotTag(tag));
  }

  /** What the user can do. `Enter` and other keys in the tag input arrive
      as `TagKey`; `HeaderBack` is the arrow button above the card. */
  datatype StoryEvent =
    | Edit(field: TextField, value: string)
    | EditNewTag(draft: string)
    | TagKey(key: string)
    | RemoveTagClicked(tag: string)
    | Continue
    | Back
    | HeaderBack
    | Publish
    | WriteAnother

  /** One event. The write step's inputs, tag badges and Continue exist only
      on step 1, Back and Publish only on step 2, Write Another only on
      step 3; an event without its control changes nothing. Publish with a
      missing field leaves everything as it was (the page shows a warning),
      and so does a click while a publish is under way (the button is
      disabled). The simulated publish always succeeds and is taken as
      instantaneous. */
  function Step(w: Wizard, e: StoryEvent): (v: Wizard)
    ensures e.Publish? && w.step == 2 && !w.form.isSubmitting && HasRequiredFields(w.form) ==>
              v.step == 3 && v.form.isPublished
    ensures e.Publish? && !HasRequiredFields(w.form) ==> v == w
    ensures e.Continue? && w.step == 1 ==> (v.step == 2 <==> HasRequiredFields(w.form))
    ensures e.HeaderBack? ==> v.step == 1 && v.form == w.form
    ensures e.Back? ==> v == (if w.step == 2 then w.(step := 1) else w)
    ensures e.WriteAnother? ==> v == (if w.step == 3 then InitialWizard else w)
  {
    var f := w.form;
    match e
    case Edit(field, value) =>
      if w.step == 1 then w.(form := HandleInputChange(f, field, value)) else w
    case EditNewTag(draft) =>
      if w.step == 1 && |f.tags| < MaxTags then w.(form := f.(newTag := draft)) else w
    case TagKey(key) =>
      if w.step == 1 && |f.tags| < MaxTags then w.(form := AddTag(f, key)) else w
    case RemoveTagClicked(tag) =>
      if w.step == 1 then w.(form := RemoveTag(f, tag)) else w
    case Continue =>
      if w.step == 1 && HasRequiredFields(f) then w.(step := 2) else w
    case Back =>
      if w.step == 2 then w.(step := 1) else w
    case HeaderBack =>
      w.(step := 1)
    case Publish =>
      if w.step == 2 && !f.isSubmitting && HasRequiredFields(f) then
        Wizard(f.(isSubmitting := true, isPublished := true), 3)
      else w
    case WriteAnother =>
      if w.step == 3 then InitialWizard else w
  }

  function Run(w: Wizard, events: seq<StoryEvent>): Wizard
    decreases |events|
  {
    if |events| == 0 then w else Run(Step(w, events[0]), events[1..])
  }

  /** A tag as the editor stores it: trimmed and not empty. */
  predicate IsCleanTag(t: string) {
    t != "" && Trim(t) == t
  }

  /** What every reachable wizard satisfies: a step of 1, 2 or 3; at most
      five distinct clean tags; a title within its limit; the media step
      only with the required fields; the published step only once
      published; and the submitting and published flags set together. */
  ghost predicate Consistent(w: Wizard) {
    1 <= w.step <= 3
    && |w.form.tags| <= MaxTags
    && Distinct(w.form.tags)
    && (forall t :: t in w.form.tags ==> IsCleanTag(t))
    && |w.form.title| <= MaxTitleLength
    && (w.step >= 2 ==> HasRequiredFields(w.form))
    && (w.step == 3 ==> w.form.isPublished)
    && (w.form.isSubmitting <==> w.form.isPublished)
  }

  lemma {:induction false} StepKeepsConsistent(w: Wizard, e: StoryEvent)
    requires Consistent(w)
    ensures Consistent(Step(w, e))
  {
    var f := w.form;
    match e
    case TagKey(key) =>
      if w.step == 1 && |f.tags| < MaxTags && AddTag(f, key) != f {
        var tag := Trim(f.newTag);
        TrimIdempotent(f.newTag);
        AppendDistinct(f.tags, tag);
        assert IsCleanTag(tag);
      }
    case RemoveTagClicked(tag) =>
      if w.step == 1 {
        FilterDistinct(f.tags, NotTag(tag));
      }
    case Edit(field, value) =>
    case EditNewTag(draft) =>
    case Continue =>
    case Back =>
    case HeaderBack =>
    case Publish =>
    case WriteAnother =>
  }

  /** Every state the page can reach from its start is consistent. */
  lemma {:induction false} RunKeepsConsistent(w: Wizard, events: seq<StoryEvent>)
    requires Consistent(w)
    ensures Consistent(Run(w, events))
    decreases |events|
  {
    if |events| > 0 {
      StepKeepsConsistent(w, events[0]);
      RunKeepsConsistent(Step(w, events[0]), events[1..]);
    }
  }

  lemma ReachableIsConsistent(events: seq<StoryEvent>)
    ensures Consistent(Run(InitialWizard, events))
    ensures Run(InitialWizard, events).step == 3 ==> HasRequiredFields(Run(InitialWizard, events).form)
  {
    RunKeepsConsistent(InitialWizard, events);
  }

  /** Going back from the published step keeps the submitting flag, so on
      returning to the media step the Publish button is still disabled and
      a second publish is ignored until Write Another resets the form. */
  lemma BackFromPublishedBlocksPublish(w: Wizard)
    requires Consistent(w) && w.step == 3
    ensures var v := Run(w, [HeaderBack, Continue]);
            v.step == 2 && v.form.isSubmitting && Step(v, Publish) == v
  {
    var u := Step(w, HeaderBack);
    assert Run(w, [HeaderBack, Continue]) == Run(u, [Continue]) by {
      assert [HeaderBack, Continue][1..] == [Continue];
    }
    assert Run(u, [Continue]) == Step(u, Continue) by {
      assert [Continue][1..] == [];
    }
  }
}
