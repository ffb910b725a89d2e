/**
 * The two VIP routes that compute something: `POST /` gives every created
 * item its slug, and `PUT /:id` merges the request body into the stored
 * record and recomputes the slug when the name or the post date is given.
 * Persistence is left to the caller: the functions return what would be
 * handed to `create`/`bulkCreate` or `save`, or the error answer.
 */
module VipRoutes {
  import opened Wrappers
  import opened JsStrings
  import opened Slug

  /** One object of a create request: the fields `generateSlug` reads, the
      slug, and every other field, kept as sent. */
  datatype Item = Item(name: Option<string>, postDate: Option<string>, slug: Option<string>,
                       rest: map<string, string>)

  /** A create request body: an array of items or a single item. */
  datatype Body = Many(items: seq<Item>) | One(item: Item)

  function SlugOf(formatDate: string -> Option<string>, item: Item): Option<string> {
    GenerateSlug(formatDate, item.postDate, item.name)
  }

  /** `{ ...item, slug: generateSlug(item.postDate, item.name) }`. */
  function WithSlug(formatDate: string -> Option<string>, item: Item): Item {
    item.(slug := SlugOf(formatDate, item))
  }

  /** `POST /` up to the store call. Each item gets the slug of its own
      post date and name and keeps every other field; an array keeps its
      length and order. `None` is the 500 answer: `generateSlug` threw for
      some item, and nothing is created. */
  method PrepareCreate(formatDate: string -> Option<string>, body: Body) returns (r: Option<Body>)
    ensures r.None? <==>
              || (body.One? && SlugOf(formatDate, body.item).None?)
              || (body.Many? && exists i :: 0 <= i < |body.items| && SlugOf(formatDate, body.items[i]).None?)
    ensures r.Some? ==> (r.value.Many? <==> body.Many?)
    ensures r.Some? && body.One? ==>
              r.value.item.slug.Some? && r.value.item == WithSlug(formatDate, body.item)
    ensures r.Some? && body.Many? ==>
              && |r.value.items| == |body.items|
              && forall i :: 0 <= i < |body.items| ==>
                   r.value.items[i].slug.Some? && r.value.items[i] == WithSlug(formatDate, body.items[i])
  {
    match body
    case One(item) =>
      if SlugOf(formatDate, item).None? {
        return None;
      }
      return Some(One(WithSlug(formatDate, item)));
    case Many(items) =>
      var out: seq<Item> := [];
      var i := 0;
      while i < |items|
        invariant 0 <= i <= |items|
        invariant |out| == i
        invariant forall k :: 0 <= k < i ==>
                    SlugOf(formatDate, items[k]).Some? && out[k] == WithSlug(formatDate, items[k])
      {
        if SlugOf(formatDate, items[i]).None? {
          return None;
        }
        out := out + [WithSlug(formatDate, items[i])];
        i := i + 1;
      }
      return Some(Many(out));
  }

  /** A stored VIP record, reduced to the fields the update touches and
      the rest. */
  datatype Content = Content(name: Option<string>, link: Option<string>, slug: string,
                             postDate: string, createdAt: string, rest: map<string, string>)

  /** The fields `PUT /:id` reads from the request body. Its `createdAt`
      is read but never reaches the record (see `Update`). */
  datatype UpdateBody = UpdateBody(name: Option<string>, link: Option<string>,
                                   createdAt: Option<string>, postDate: Option<string>)

  /** 404, 500, or the record as it is handed to `save()`. */
  datatype UpdateReply = NotFound | Failed | Updated(content: Content)

  /** The slug is recomputed when the body's name or post date is truthy. */
  predicate RecomputesSlug(body: UpdateBody) {
    Truthy(body.name) || Truthy(body.postDate)
  }

  /** `PUT /:id`. `name` and `link` are always overwritten, even by an
      absent value; `postDate` keeps its stored value when the body's is
      falsy. `createdAt` always keeps its stored value: the record keeps
      Sequelize's default timestamps, and Sequelize ignores an assignment
      to the `createdAt` timestamp of a stored record. The slug fallback
      for the name reads the field just overwritten, so a truthy post date
      without a name makes `generateSlug` throw. */
  function Update(formatDate: string -> Option<string>, stored: Option<Content>, body: UpdateBody)
    : (r: UpdateReply)
    ensures r.NotFound? <==> stored.None?
    ensures r.Failed? <==>
              && stored.Some? && RecomputesSlug(body)
              && (body.name.None? || formatDate(if Truthy(body.postDate) then body.postDate.value
                                                else stored.value.postDate).None?)
    ensures r.Updated? ==>
              && r.content.name == body.name
              && r.content.link == body.link
              && r.content.createdAt == stored.value.createdAt
              && r.content.postDate == (if Truthy(body.postDate) then body.postDate.value
                                        else stored.value.postDate)
              && r.content.rest == stored.value.rest
    ensures r.Updated? && !RecomputesSlug(body) ==> r.content.slug == stored.value.slug
    ensures r.Updated? && RecomputesSlug(body) ==>
              GenerateSlug(formatDate, Some(r.content.postDate), r.content.name) == Some(r.content.slug)
  {
    if stored.None? then NotFound
    else
      var c := stored.value;
      var merged := c.(name := body.name,
                       link := body.link,
                       postDate := if Truthy(body.postDate) then body.postDate.value else c.postDate);
      if RecomputesSlug(body) then
        var slug := GenerateSlug(formatDate,
                                 if Truthy(body.postDate) then body.postDate else Some(merged.postDate),
                                 if Truthy(body.name) then body.name else merged.name);
        if slug.None? then Failed else Updated(merged.(slug := slug.value))
      else Updated(merged)
  }

  /** A truthy post date sent without a name fails with 500. */
  lemma PostDateWithoutNameFails(formatDate: string -> Option<string>, stored: Content, body: UpdateBody)
    requires body.name.None? && Truthy(body.postDate)
    ensures Update(formatDate, Some(stored), body) == Failed
  {
  }

  /** Sending the same body again to the updated record changes nothing. */
  lemma UpdateIdempotent(formatDate: string -> Option<string>, stored: Content, body: UpdateBody)
    requires Update(formatDate, Some(stored), body).Updated?
    ensures var c := Update(formatDate, Some(stored), body).content;
            Update(formatDate, Some(c), body) == Update(formatDate, Some(stored), body)
  {
  }
}
