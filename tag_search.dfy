/**
 * GET /tag/search: the caller's own images that carry a tag whose name
 * contains the term, each listed once.
 */
module TagSearch {
  import opened Store
  import opened Text

  /** Some tag of the image has a name that contains the term (the JOINs and `t.Nome LIKE '%term%'`). */
  predicate TaggedLike(t: Tables, i: ImageId, term: string) {
    exists x :: x in t.imageTags && x.image == i && x.tag in t.tags && Contains(t.tags[x.tag].name, term)
  }

  /**
   * The term is checked before the session: a missing or empty term is a bad
   * request even without a session. The session check tests the user id for
   * truthiness, so an id of 0 counts as no session (AUTO_INCREMENT ids start
   * at 1). The result is a set: DISTINCT lists each image once.
   */
  function SearchByTag(t: Tables, term: Option<string>, user: Option<UserId>): (r: Result<set<ImageId>>)
    ensures term.None? || term.value == "" <==> r == Err(BadRequest)
    ensures term.Some? && term.value != "" && (user.None? || user.value == 0) <==> r == Err(NotLoggedIn)
    ensures r.Ok? ==> forall i :: i in r.value <==> OwnsImage(t, user.value, i) && TaggedLike(t, i, term.value)
  {
    if term.None? || term.value == "" then Err(BadRequest)
    else if user.None? || user.value == 0 then Err(NotLoggedIn)
    else Ok(set x | x in t.imageTags && x.image in t.images && t.images[x.image].owner == user.value
                      && x.tag in t.tags && Contains(t.tags[x.tag].name, term.value) :: x.image)
  }

  /** Searching by the full name of a tag on one of my images finds that image. */
  lemma {:induction false} FullNameFinds(t: Tables, me: UserId, i: ImageId, g: TagId)
    requires me != 0 && OwnsImage(t, me, i)
    requires ImageTag(i, g) in t.imageTags && g in t.tags && t.tags[g].name != ""
    ensures i in SearchByTag(t, Some(t.tags[g].name), Some(me)).value
  {
    ContainsSelf(t.tags[g].name);
  }

  /** A longer term that contains a shorter one never finds more images than the shorter one. */
  lemma {:induction false} LongerTermFindsLess(t: Tables, me: UserId, longer: string, shorter: string)
    requires me != 0 && shorter != "" && Contains(longer, shorter)
    ensures SearchByTag(t, Some(longer), Some(me)).Ok?
    ensures SearchByTag(t, Some(longer), Some(me)).value <= SearchByTag(t, Some(shorter), Some(me)).value
  {
    assert longer != "" by {
      if longer == "" {
        ContainsAt(longer, shorter);
      }
    }
    forall i | i in SearchByTag(t, Some(longer), Some(me)).value ensures TaggedLike(t, i, shorter) {
      var x :| x in t.imageTags && x.image == i && x.tag in t.tags && Contains(t.tags[x.tag].name, longer);
      ContainsTrans(t.tags[x.tag].name, longer, shorter);
    }
  }
}
