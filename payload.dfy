/**
  The activities API response after JSON decoding, as the change detector
  sees it. The detector reads the top-level `data` member and, inside each
  object of that array, the members `id`, `status`, `nama_kegiatan` (the
  activity name), `mitra_brand_name` (the partner) and `mitra_logo`.
 */
module Payload {

  datatype Option<+T> = None | Some(value: T)

  /** One member of a decoded JSON object, as a type assertion sees it:
      missing, present with another JSON type, or present with the expected one. */
  datatype Field<+T> = Absent | Mistyped | Has(value: T)

  /** One element of the `data` array. The detector only ever renders `name`
      and `partner` with `%s`, so they are kept as the strings they render to. */
  datatype Element =
    | NonObject
    | Record(id: Field<int>, status: Field<string>, name: string, partner: string, logo: Field<string>)

  /** The `data` member: an array, or anything else (missing, null, an object, ...). */
  datatype Data = List(elements: seq<Element>) | NotList

  /** The response body: not JSON, or JSON other than an object or null
      (`Undecodable`); or an object, or null, whose `data` member is inspected
      (a null body has no members, so its `data` is `NotList`). */
  datatype Response = Undecodable | Decoded(data: Data)

  /** The status the detector ignores whatever the table says. */
  const Processed: string := "PROCESSED"

  /** A record whose `id` and `status` pass their type assertions. */
  predicate WellTyped(e: Element)
  {
    e.Record? ==> e.id.Has? && e.status.Has?
  }

  /** A well-typed record whose status is not PROCESSED: the only kind of
      element the detector compares against its table. */
  predicate Tracked(e: Element)
  {
    e.Record? && e.id.Has? && e.status.Has? && e.status.value != Processed
  }
}
