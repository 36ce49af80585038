/**
  The new-post form: its blank-input check, the comma-separated tag parser,
  and how submitting updates the form, its error line and its busy flag.
 */
module NewPost {
  import opened JsValues
  import opened JsText
  import opened Sequences

  /** `pieces.map((tag) => tag.trim())`. */
  function TrimAll(pieces: seq<string>): (r: seq<string>)
    ensures |r| == |pieces|
    ensures forall i :: 0 <= i < |pieces| ==> r[i] == Trim(pieces[i])
  {
    seq(|pieces|, i requires 0 <= i < |pieces| => Trim(pieces[i]))
  }

  function NonEmpty(s: string): bool { s != [] }

  /** `raw.split(",").map((tag) => tag.trim()).filter(Boolean)`. */
  function ParseTags(raw: string): (tags: seq<string>)
    ensures |tags| <= Count(raw, ',') + 1
    ensures forall t :: t in tags ==> t != []
  {
    Filter(TrimAll(Split(raw, ',')), NonEmpty)
  }

  /** A tag as the parser yields it: non-empty, no surrounding whitespace,
      no comma. */
  predicate IsTag(t: string) {
    t != [] && IsTrimmed(t) && ',' !in t
  }

  /** The parsed tags are the trimmed comma-separated pieces, in order, with
      the empty ones dropped and every other one kept as often as it occurs;
      each is a proper tag, and there are at most as many as commas plus one. */
  lemma ParseTagsSpec(raw: string)
    ensures var tags, pieces := ParseTags(raw), Split(raw, ',');
      && IsSubsequence(tags, TrimAll(pieces))
      && (forall t :: t in tags ==> IsTag(t))
      && (forall i :: 0 <= i < |pieces| && !IsBlank(pieces[i]) ==> Trim(pieces[i]) in tags)
      && (forall t | t in TrimAll(pieces) && t != [] :: multiset(tags)[t] == multiset(TrimAll(pieces))[t])
      && |tags| <= Count(raw, ',') + 1
  {
    var pieces := Split(raw, ',');
    var trimmed := TrimAll(pieces);
    forall t | t in ParseTags(raw) ensures IsTag(t) {
      var i :| 0 <= i < |trimmed| && trimmed[i] == t;
      TrimSpec(pieces[i]);
      TrimKeepsOut(pieces[i], ',');
    }
    forall i | 0 <= i < |pieces| && !IsBlank(pieces[i]) ensures Trim(pieces[i]) in ParseTags(raw) {
      assert trimmed[i] == Trim(pieces[i]);
    }
  }

  /** A character absent from a string is absent from its trimmed form. */
  lemma TrimKeepsOut(s: string, c: char)
    requires c !in s
    ensures c !in Trim(s)
  {
    TrimSpec(s);
  }

  /** Writing tags back as `tags.join(", ")` and parsing the text again gives
      the same tags. */
  lemma ParseJoinedTags(tags: seq<string>)
    requires forall t :: t in tags ==> IsTag(t)
    ensures ParseTags(Join(tags, ", ")) == tags
  {
    if tags == [] {
      assert Split([], ',') == [[]];
      assert TrimAll([[]]) == [[]];
    } else {
      var spaced := Spaced(tags);
      forall i | 0 <= i < |tags| ensures NonEmpty(tags[i]) {
        assert tags[i] in tags;
      }
      calc {
        ParseTags(Join(tags, ", "));
        Filter(TrimAll(Split(Join(tags, ", "), ',')), NonEmpty);
        { JoinSpaced(tags); }
        Filter(TrimAll(Split(Join(spaced, [',']), ',')), NonEmpty);
        { SpacedCommaFree(tags); SplitJoin(spaced, ','); }
        Filter(TrimAll(spaced), NonEmpty);
        { TrimSpaced(tags); }
        Filter(tags, NonEmpty);
        { FilterAll(tags, NonEmpty); }
        tags;
      }
    }
  }

  lemma SpacedCommaFree(tags: seq<string>)
    requires tags != []
    requires forall t :: t in tags ==> IsTag(t)
    ensures forall k :: 0 <= k < |tags| ==> ',' !in Spaced(tags)[k]
  {
    forall k | 0 <= k < |tags| ensures ',' !in Spaced(tags)[k] {
      assert tags[k] in tags;
    }
  }

  lemma TrimSpaced(tags: seq<string>)
    requires tags != []
    requires forall t :: t in tags ==> IsTag(t)
    ensures TrimAll(Spaced(tags)) == tags
  {
    var spaced := Spaced(tags);
    forall k | 0 <= k < |spaced| ensures Trim(spaced[k]) == tags[k] {
      assert tags[k] in tags;
      TrimSpacePrefixed(tags[k], k > 0);
    }
  }

  /** The pieces `", "`-joined tags split into at the commas. */
  function Spaced(tags: seq<string>): (r: seq<string>)
    requires tags != []
    ensures |r| == |tags|
    ensures r[0] == tags[0]
    ensures forall k :: 0 < k < |tags| ==> r[k] == [' '] + tags[k]
  {
    [tags[0]] + seq(|tags| - 1, i requires 0 <= i < |tags| - 1 => [' '] + tags[i + 1])
  }

  lemma {:induction false} JoinSpaced(tags: seq<string>)
    requires tags != []
    ensures Join(tags, ", ") == Join(Spaced(tags), [','])
  {
    if |tags| > 1 {
      JoinSpaced(tags[1..]);
      var rest := Spaced(tags[1..]);
      assert Spaced(tags)[1..] == [[' '] + rest[0]] + rest[1..];
      SpacedJoin(rest);
    }
  }

  /** Putting a space before the first piece of a comma join. */
  lemma SpacedJoin(rest: seq<string>)
    requires rest != []
    ensures [' '] + Join(rest, [',']) == Join([[' '] + rest[0]] + rest[1..], [','])
  {
    var moved := [[' '] + rest[0]] + rest[1..];
    if |rest| > 1 {
      assert moved[1..] == rest[1..];
    }
  }

  lemma TrimSpacePrefixed(t: string, spaced: bool)
    requires t != [] && IsTrimmed(t)
    ensures Trim(if spaced then [' '] + t else t) == t
  {
    TrimOfTrimmed(t);
    if spaced {
      assert ([' '] + t)[1..] == t;
      assert TrimStart([' '] + t) == TrimStart(t);
    }
  }

  /** What `onCreate` receives. */
  datatype CreateInput = CreateInput(title: string, body: string, tags: seq<string>)

  /** What the form hands to `onCreate` for a title and body that are not
      blank: both trimmed and non-empty, and every tag a proper tag. */
  lemma CreateInputWellFormed(title: string, body: string, rawTags: string)
    requires !IsBlank(title) && !IsBlank(body)
    ensures var input := CreateInput(Trim(title), Trim(body), ParseTags(rawTags));
      && input.title != [] && IsTrimmed(input.title)
      && input.body != [] && IsTrimmed(input.body)
      && (forall t :: t in input.tags ==> IsTag(t))
  {
    TrimSpec(title);
    TrimSpec(body);
    ParseTagsSpec(rawTags);
  }

  const RequiredMessage := "Title and body are required."
  const FallbackMessage := "Something went wrong"

  /** The form's state: the three inputs, the busy flag and the error line. */
  class NewPostForm {
    var title: string
    var body: string
    var tags: string
    var submitting: bool
    var error: Option<string>

    constructor ()
      ensures title == [] && body == [] && tags == []
      ensures !submitting && error == None
    {
      title, body, tags := [], [], [];
      submitting, error := false, None;
    }

    /** The submit button is disabled while submitting or when told so: no
        second submission while one is in flight. */
    predicate SubmitDisabled(disabled: bool)
      reads this
      ensures submitting ==> SubmitDisabled(disabled)
      ensures !disabled && !submitting ==> !SubmitDisabled(disabled)
    {
      disabled || submitting
    }

    /** `handleSubmit`, with the outcome of the awaited `onCreate` as a
        parameter. A blank title or body only sets the error; otherwise
        `onCreate` gets the trimmed title and body and the parsed tags, the
        form is cleared if it resolved and kept with the error message if it
        threw, and it is no longer submitting either way. */
    method HandleSubmit(onCreate: Outcome) returns (sent: Option<CreateInput>)
      modifies this
      ensures IsBlank(old(title)) || IsBlank(old(body)) ==>
        && sent == None
        && error == Some(RequiredMessage)
        && title == old(title) && body == old(body) && tags == old(tags)
        && submitting == old(submitting)
      ensures !IsBlank(old(title)) && !IsBlank(old(body)) ==>
        && sent == Some(CreateInput(Trim(old(title)), Trim(old(body)), ParseTags(old(tags))))
        && !submitting
        && (onCreate.Resolved? ==> title == [] && body == [] && tags == [] && error == None)
        && (onCreate.Threw? ==>
              title == old(title) && body == old(body) && tags == old(tags)
              && error == Some(MessageOr(onCreate.error, FallbackMessage)))
    {
      if IsBlank(title) || IsBlank(body) {
        error := Some(RequiredMessage);
        return None;
      }
      submitting := true;
      error := None;
      var parsed := ParseTags(tags);
      sent := Some(CreateInput(Trim(title), Trim(body), parsed));
      if onCreate.Resolved? {
        title, body, tags := [], [], [];
      } else {
        error := Some(MessageOr(onCreate.error, FallbackMessage));
      }
      submitting := false;
    }
  }
}
