/**
 * `normalizePaginator` of the web client: turn a bare Laravel paginator into
 * the `{data, meta, links}` shape, and leave a payload that already has
 * `meta` alone.
 */
module Pagination {
  import opened Wrappers

  /** A JSON field value as the normaliser sees it: copied, never inspected. */
  datatype Field = Undefined | Null | Num(n: int) | Text(s: string)

  datatype Meta = Meta(
    currentPage: Field, from: Field, lastPage: Field, path: Field,
    perPage: Field, to: Field, total: Field)

  datatype Links = Links(first: Field, last: Field, prev: Field, next: Field)

  /** The top-level fields of a bare Laravel paginator. */
  datatype PaginatorFields = PaginatorFields(
    currentPage: Field, from: Field, lastPage: Field, path: Field,
    perPage: Field, to: Field, total: Field,
    firstPageUrl: Field, lastPageUrl: Field, nextPageUrl: Field, prevPageUrl: Field)

  const NoPaginatorFields := PaginatorFields(
    Undefined, Undefined, Undefined, Undefined, Undefined, Undefined, Undefined,
    Undefined, Undefined, Undefined, Undefined)

  /**
   * A response payload. `meta` is `None` when it is absent or falsy; `links`
   * likewise. A normalised payload carries no bare paginator fields.
   */
  datatype Payload<T> = Payload(data: seq<T>, meta: Option<Meta>, links: Option<Links>, paginator: PaginatorFields)

  /** `normalizePaginator`. */
  function NormalizePaginator<T>(p: Payload<T>): (r: Payload<T>)
    ensures r.meta.Some?
    ensures p.meta.Some? ==> r == p
    ensures r.data == p.data
  {
    if p.meta.Some? then p
    else
      var f := p.paginator;
      Payload(
        p.data,
        Some(Meta(f.currentPage, f.from, f.lastPage, f.path, f.perPage, f.to, f.total)),
        Some(Links(f.firstPageUrl, f.lastPageUrl, f.prevPageUrl, f.nextPageUrl)),
        NoPaginatorFields)
  }

  /** Reads the paginator fields back out of a normalised payload. */
  function PaginatorOf<T>(p: Payload<T>): (f: PaginatorFields)
    requires p.meta.Some? && p.links.Some?
  {
    var m, l := p.meta.value, p.links.value;
    PaginatorFields(m.currentPage, m.from, m.lastPage, m.path, m.perPage, m.to, m.total,
                    l.first, l.last, l.next, l.prev)
  }

  /**
   * Nothing of a bare paginator is lost: every field lands in `meta` or
   * `links` under its new name and can be read back.
   */
  lemma NormalizeKeepsEveryField<T>(p: Payload<T>)
    requires p.meta.None?
    ensures var r := NormalizePaginator(p);
      && r.links == Some(Links(p.paginator.firstPageUrl, p.paginator.lastPageUrl,
                               p.paginator.prevPageUrl, p.paginator.nextPageUrl))
      && PaginatorOf(r) == p.paginator
      && r.paginator == NoPaginatorFields
  {
  }

  /** Normalising twice is normalising once. */
  lemma NormalizeIsIdempotent<T>(p: Payload<T>)
    ensures NormalizePaginator(NormalizePaginator(p)) == NormalizePaginator(p)
  {
  }
}
