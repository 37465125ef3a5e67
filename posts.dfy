/**
 * The values the template derives from the post and its neighbours:
 * `parsePost` (identifier and category defaults, applied in place),
 * `formatReadNext` and the neighbour summaries, the display class and the
 * page title. A JavaScript value that may be missing is an `Option`; a
 * text is truthy when it is present and not empty.
 */
module Posts {
  import opened Wrappers

  /** JavaScript truthiness of a value that is a text or missing. */
  predicate Truthy(v: Option<string>)
  {
    v.Some? && v.value != ""
  }

  /** The front matter of the post, whose `id` and `category_id` `parsePost` updates. */
  class Post {
    var id: Option<string>
    var categoryId: Option<string>
    var title: Option<string>
    var cover: Option<string>
    var postClass: Option<string>

    constructor (id: Option<string>, categoryId: Option<string>, title: Option<string>,
                 cover: Option<string>, postClass: Option<string>)
      ensures this.id == id && this.categoryId == categoryId && this.title == title
      ensures this.cover == cover && this.postClass == postClass
    {
      this.id := id;
      this.categoryId := categoryId;
      this.title := title;
      this.cover := cover;
      this.postClass := postClass;
    }
  }

  /** The identifier `parsePost` leaves: the post's own when truthy, else the slug. */
  function ResolvedId(id: Option<string>, slug: Option<string>): (r: Option<string>)
    ensures Truthy(r) <==> Truthy(id) || Truthy(slug)
    ensures Truthy(id) ==> r == id
    ensures !Truthy(id) ==> r == slug
  {
    if Truthy(id) then id else slug
  }

  /**
   * The category `parsePost` leaves. The default is tested against the
   * identifier after the slug has been substituted, so it is assigned only
   * when neither the identifier nor the slug is truthy.
   */
  function ResolvedCategory(id: Option<string>, slug: Option<string>, categoryId: Option<string>,
                            defaultCategoryId: string): (r: Option<string>)
    ensures !Truthy(id) && !Truthy(slug) ==> r == Some(defaultCategoryId)
    ensures Truthy(id) || Truthy(slug) ==> r == categoryId
  {
    if Truthy(ResolvedId(id, slug)) then categoryId else Some(defaultCategoryId)
  }

  /**
   * `parsePost(post, slug)`: fills in the identifier and the category of
   * `post` in place and returns the same object; no other field changes.
   */
  method ParsePost(post: Post, slug: Option<string>, defaultCategoryId: string) returns (result: Post)
    modifies post`id, post`categoryId
    ensures result == post
    ensures post.id == ResolvedId(old(post.id), slug)
    ensures post.categoryId == ResolvedCategory(old(post.id), slug, old(post.categoryId), defaultCategoryId)
  {
    result := post;
    if !Truthy(result.id) {
      result.id := slug;
    }
    if !Truthy(result.id) {
      result.categoryId := Some(defaultCategoryId);
    }
  }

  /** Applying `parsePost` again with the same slug changes nothing further. */
  lemma ParsePostIdempotent(id: Option<string>, slug: Option<string>, categoryId: Option<string>,
                            defaultCategoryId: string)
    ensures var id1 := ResolvedId(id, slug);
      var cat1 := ResolvedCategory(id, slug, categoryId, defaultCategoryId);
      ResolvedId(id1, slug) == id1 && ResolvedCategory(id1, slug, cat1, defaultCategoryId) == cat1
  {
  }

  /** A post without identifier and without slug gets the default category and keeps no identifier. */
  lemma NoIdNoSlug(categoryId: Option<string>, defaultCategoryId: string)
    ensures ResolvedId(None, None) == None
    ensures ResolvedCategory(None, None, categoryId, defaultCategoryId) == Some(defaultCategoryId)
  {
  }

  /** The `fields` of a neighbour record. */
  datatype NodeFields = NodeFields(slug: Option<string>)

  /** The `frontmatter` of a neighbour record, as far as it is read. */
  datatype NeighbourFrontmatter = NeighbourFrontmatter(title: Option<string>, cover: Option<string>)

  /** A neighbour record of the page query (`data.next` or `data.prev`). */
  datatype Neighbour = Neighbour(fields: NodeFields, frontmatter: NeighbourFrontmatter, excerpt: Option<string>)

  /** What the read-next section receives for a neighbour. */
  datatype ReadNextSummary = ReadNextSummary(path: Option<string>, title: Option<string>,
                                             cover: Option<string>, excerpt: Option<string>)

  /** `formatReadNext`: the slug, title, cover and excerpt of a neighbour. */
  function FormatReadNext(value: Neighbour): ReadNextSummary
  {
    ReadNextSummary(value.fields.slug, value.frontmatter.title, value.frontmatter.cover, value.excerpt)
  }

  /** The four values `formatReadNext` reads. */
  function ReadFields(value: Neighbour): (Option<string>, Option<string>, Option<string>, Option<string>)
  {
    (value.fields.slug, value.frontmatter.title, value.frontmatter.cover, value.excerpt)
  }

  /**
   * Two neighbours give the same summary exactly when they agree on those
   * four values: nothing else is read and nothing read is lost.
   */
  lemma FormatReadNextExact(a: Neighbour, b: Neighbour)
    ensures FormatReadNext(a) == FormatReadNext(b) <==> ReadFields(a) == ReadFields(b)
  {
  }

  /** The error `formatReadNext` raises when the neighbour record is `null`. */
  datatype NeighbourError = NullNeighbour

  /**
   * `getNextData()` / `getPrevData()`: `null` (None) exactly when the route
   * gives no truthy neighbour slug; a missing record with a truthy slug
   * makes `formatReadNext` throw; otherwise the summary holds the record's
   * slug, title, cover and excerpt.
   */
  function NeighbourData(slug: Option<string>, record: Option<Neighbour>): (r: Result<Option<ReadNextSummary>, NeighbourError>)
    ensures r == Success(None) <==> !Truthy(slug)
    ensures r.Failure? <==> Truthy(slug) && record.None?
    ensures r.Success? && r.value.Some? ==>
      && record.Some? && r.value.value.path == record.value.fields.slug
      && r.value.value.title == record.value.frontmatter.title
      && r.value.value.cover == record.value.frontmatter.cover
      && r.value.value.excerpt == record.value.excerpt
  {
    if !Truthy(slug) then Success(None)
    else if record.None? then Failure(NullNeighbour)
    else Success(Some(FormatReadNext(record.value)))
  }

  /** The class name used when the post gives none. */
  const DefaultClass: string := "post"

  /** `post.post_class ? post.post_class : "post"`: never empty. */
  function ClassName(postClass: Option<string>): (r: string)
    ensures r != ""
    ensures Truthy(postClass) ==> r == postClass.value
    ensures !Truthy(postClass) ==> r == DefaultClass
  {
    if Truthy(postClass) then postClass.value else DefaultClass
  }

  /** The separator between the post title and the site title. */
  const TitleSeparator: string := " | "

  /**
   * The text of the post title in the template literal. The page query
   * yields `null` for a post without a title, and the literal writes
   * that as `null`.
   */
  function TitleText(title: Option<string>): string
  {
    match title
    case None => "null"
    case Some(t) => t
  }

  /**
   * The page title: the post title, the separator, then the site title.
   * The post title is recovered from it by removing the separator and the
   * site title.
   */
  function PageTitle(title: Option<string>, siteTitle: string): (r: string)
    ensures var tail := TitleSeparator + siteTitle;
      |r| == |TitleText(title)| + |tail| && r[..|TitleText(title)|] == TitleText(title) && r[|TitleText(title)|..] == tail
  {
    TitleText(title) + TitleSeparator + siteTitle
  }
}
