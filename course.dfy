/** The course entity: its lifecycle status, its price and the helpers that read them.
    Prices are `BigDecimal`s with scale 2, held here as whole hundredths. */
module Courses {
  import opened Wrappers

  datatype CourseStatus = DRAFT | PUBLISHED | ARCHIVED | SUSPENDED

  /** The persistent fields of a course that its helpers and services read or write;
      `enrollments` holds the ids of the course's enrollment rows, `tags` the slugs of its tags. */
  datatype CourseRecord = CourseRecord(
    id: string,
    title: string,
    slug: string,
    status: CourseStatus,
    price: Option<int>,
    discountPrice: Option<int>,
    currency: string,
    maxStudents: Option<int>,
    language: Option<string>,
    publishedAt: Option<int>,
    deletedAt: Option<int>,
    instructorId: string,
    categoryId: Option<string>,
    enrollments: Option<set<string>>,
    tags: set<string>)
  {
    /** `isPublished`: PUBLISHED with a publication time. */
    predicate IsPublished() {
      status == PUBLISHED && publishedAt.Some?
    }

    /** `isActive`: PUBLISHED and not soft-deleted. */
    predicate IsActive() {
      status == PUBLISHED && deletedAt.None?
    }

    /** `getEffectivePrice`: the discount price when there is one, else the list price. */
    function EffectivePrice(): (p: Option<int>)
      ensures discountPrice.Some? ==> p == discountPrice
      ensures discountPrice.None? ==> p == price
    {
      if discountPrice.Some? then discountPrice else price
    }

    /** `isFree`: no effective price, or one numerically equal to zero. */
    predicate IsFree() {
      EffectivePrice().None? || EffectivePrice().value == 0
    }

    /** `getEnrollmentCount`: a null collection counts as empty. */
    function EnrollmentCount(): (n: nat)
      ensures enrollments.None? ==> n == 0
      ensures enrollments.Some? ==> n == |enrollments.value|
    {
      if enrollments.Some? then |enrollments.value| else 0
    }
  }

  /** A discount decides whether a course is free, whatever the list price. */
  lemma DiscountDecidesFreeness(c: CourseRecord)
    requires c.discountPrice.Some?
    ensures c.IsFree() <==> c.discountPrice.value == 0
    ensures c.price.Some? && c.price.value == 0 && c.discountPrice.value != 0 ==> !c.IsFree()
  {
  }

  /** Without a discount, the list price decides. */
  lemma ListPriceDecidesFreeness(c: CourseRecord)
    requires c.discountPrice.None?
    ensures c.IsFree() <==> c.price.None? || c.price.value == 0
  {
  }

  /** The copy `softDelete` leaves: the deletion time stamped and the status ARCHIVED. */
  function SoftDeleted(c: CourseRecord, now: int): (r: CourseRecord)
    ensures r.deletedAt == Some(now) && r.status == ARCHIVED
    ensures !r.IsActive() && !r.IsPublished()
    ensures r.(deletedAt := c.deletedAt, status := c.status) == c
  {
    c.(deletedAt := Some(now), status := ARCHIVED)
  }

  /** A course as the persistence layer holds it; services update it in place. */
  class Course {
    var id: string
    var title: string
    var slug: string
    var status: CourseStatus
    var price: Option<int>
    var discountPrice: Option<int>
    var currency: string
    var maxStudents: Option<int>
    var language: Option<string>
    var publishedAt: Option<int>
    var deletedAt: Option<int>
    var instructorId: string
    var categoryId: Option<string>
    var enrollments: Option<set<string>>
    var tags: set<string>

    function Snapshot(): CourseRecord
      reads this
    {
      CourseRecord(id, title, slug, status, price, discountPrice, currency, maxStudents, language,
                   publishedAt, deletedAt, instructorId, categoryId, enrollments, tags)
    }

    /** A builder call that sets every field. */
    constructor FromRecord(r: CourseRecord)
      ensures Snapshot() == r
    {
      id, title, slug, status, price, discountPrice := r.id, r.title, r.slug, r.status, r.price, r.discountPrice;
      currency, maxStudents, language, publishedAt, deletedAt := r.currency, r.maxStudents, r.language, r.publishedAt, r.deletedAt;
      instructorId, categoryId, enrollments, tags := r.instructorId, r.categoryId, r.enrollments, r.tags;
    }

    method SetStatus(status: CourseStatus)
      modifies this
      ensures Snapshot() == old(Snapshot()).(status := status)
    {
      this.status := status;
    }

    method SetPublishedAt(t: Option<int>)
      modifies this
      ensures Snapshot() == old(Snapshot()).(publishedAt := t)
    {
      publishedAt := t;
    }

    /** `softDelete`. */
    method SoftDelete(now: int)
      modifies this
      ensures Snapshot() == SoftDeleted(old(Snapshot()), now)
    {
      deletedAt := Some(now);
      status := ARCHIVED;
    }
  }
}
