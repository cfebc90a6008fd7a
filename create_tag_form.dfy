/**
 * The pure parts of the tag creation form of src/components/create-tag-form.tsx
 * around the slug deriver: the validation rule on the tag name, the slug shown
 * while the name is typed, and the body of the request that creates the tag.
 */
module CreateTagForm {
  import opened CharClasses
  import opened SlugDeriver

  datatype Option<T> = None | Some(value: T)

  datatype Result<T> = Ok(value: T) | Err(message: string)

  /** The shortest tag name the schema accepts. */
  const MinNameLength: nat := 3

  /** The message the schema attaches to a name that is too short. */
  const NameTooShort: string := "Minimum 3 characters."

  /**
   * The schema of the form: a name is accepted exactly when it has at least
   * three characters; a shorter one is rejected with the fixed message.
   */
  function ValidateName(name: string): (r: Result<string>)
    ensures r.Ok? <==> |name| >= MinNameLength
    ensures r.Ok? ==> r.value == name
    ensures r.Err? ==> r.message == NameTooShort
  {
    if |name| < MinNameLength then Err(NameTooShort) else Ok(name)
  }

  /**
   * The slug displayed under the name field. The field is unset before the
   * first keystroke; an unset or empty name shows the empty slug, any other
   * name shows the slug derived from it.
   */
  function WatchedSlug(name: Option<string>): (r: string)
    ensures name.None? ==> r == []
    ensures name.Some? ==> r == SlugFromString(name.value)
  {
    if name.None? || name.value == [] then [] else SlugFromString(name.value)
  }

  /** The JSON body posted to create a tag. */
  datatype TagCreationRequest = TagCreationRequest(title: string, slug: string, amountOfVideos: int)

  /**
   * Submitting the form: the name is validated, and an accepted name becomes a
   * request whose title is the name, whose slug is the slug displayed for it
   * and which starts with no videos.
   */
  function CreateTagRequest(name: string): (r: Result<TagCreationRequest>)
    ensures r.Ok? <==> |name| >= MinNameLength
    ensures r.Err? ==> r.message == NameTooShort
    ensures r.Ok? ==> r.value.title == name
    ensures r.Ok? ==> r.value.slug == SlugFromString(name)
    ensures r.Ok? ==> r.value.amountOfVideos == 0
    ensures r.Ok? ==> forall i :: 0 <= i < |r.value.slug| ==> IsSlugChar(r.value.slug[i])
  {
    match ValidateName(name)
    case Err(message) => Err(message)
    case Ok(title) => Ok(TagCreationRequest(title, WatchedSlug(Some(title)), 0))
  }

  /** A name of three characters or more is accepted even when its slug comes out empty. */
  lemma AcceptedNameWithEmptySlug()
    ensures CreateTagRequest("!!!") == Ok(TagCreationRequest("!!!", "", 0))
  {
  }

  /** A two-character name is rejected with the schema's message. */
  lemma ShortNameRejected()
    ensures CreateTagRequest("ab") == Err("Minimum 3 characters.")
  {
  }
}
