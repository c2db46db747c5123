/** The course service: creation with its guards, unique slugs and tag lookup, the ownership
    check, and the publish and archive transitions. Repository lookups arrive as parameters:
    the course and user found by id (or null), the category ids and slugs in use. */
module CourseService {
  import opened Wrappers
  import opened Text
  import opened Users
  import opened Courses
  import opened Tags
  import Slugs

  datatype CourseError =
    | ResourceNotFound(resource: string, field: string, value: string)
    | InvalidOperation(message: string)

  /** The fields of `CreateCourseRequest` the service reads into the new course. */
  datatype CreateCourseRequest = CreateCourseRequest(
    title: string,
    categoryId: Option<string>,
    tags: Option<seq<string>>,
    price: Option<int>,
    discountPrice: Option<int>,
    currency: Option<string>,
    maxStudents: Option<int>,
    language: Option<string>)

  const DEFAULT_CURRENCY: string := "USD"

  /** `isInstructorOrAdmin`. */
  predicate IsInstructorOrAdmin(role: UserRole) {
    role == INSTRUCTOR || role == ADMIN
  }

  /** `checkOwnershipOrAdmin`: the user must exist, and must be the course's instructor or
      hold the ADMIN role. SUPER_ADMIN is not ADMIN here. */
  function CheckOwnershipOrAdmin(c: CourseRecord, userId: string, user: Option<UserRecord>): (r: Outcome<CourseError>)
    ensures r.Pass? <==> user.Some? && (c.instructorId == userId || user.value.role == ADMIN)
    ensures user.None? ==> r == Fail(ResourceNotFound("User", "id", userId))
    ensures user.Some? && c.instructorId != userId && user.value.role != ADMIN ==>
              r == Fail(InvalidOperation("User does not have permission to modify this course"))
  {
    if user.None? then Fail(ResourceNotFound("User", "id", userId))
    else if c.instructorId != userId && user.value.role != ADMIN then
      Fail(InvalidOperation("User does not have permission to modify this course"))
    else Pass
  }

  /** The course `createCourse` builds: DRAFT, unpublished, with the request's prices, the
      request's currency or USD, and the request's language as given (a null language
      overrides the entity's "en" default). */
  function NewCourse(id: string, req: CreateCourseRequest, slug: string, tags: set<string>, instructorId: string)
    : (c: CourseRecord)
    ensures c.status == DRAFT && !c.IsPublished() && !c.IsActive()
    ensures req.currency.None? ==> c.currency == DEFAULT_CURRENCY
    ensures req.currency.Some? ==> c.currency == req.currency.value
    ensures c.language == req.language && c.EnrollmentCount() == 0
    ensures c.slug == slug && c.tags == tags && c.instructorId == instructorId && c.deletedAt.None?
  {
    CourseRecord(id, req.title, slug, DRAFT, req.price, req.discountPrice, req.currency.GetOr(DEFAULT_CURRENCY),
                 req.maxStudents, req.language, None, None, instructorId, req.categoryId, Some({}), tags)
  }

  /** The course after a successful `publishCourse`. */
  function Published(c: CourseRecord, now: int): (r: CourseRecord)
    ensures r.IsPublished() && (r.IsActive() <==> c.deletedAt.None?)
    ensures r.(status := c.status, publishedAt := c.publishedAt) == c
  {
    c.(status := PUBLISHED, publishedAt := Some(now))
  }

  /** The course after a successful `archiveCourse`: the publication time stays. */
  function Archived(c: CourseRecord): (r: CourseRecord)
    ensures r.status == ARCHIVED && !r.IsPublished() && !r.IsActive()
    ensures r.publishedAt == c.publishedAt && r.(status := c.status) == c
  {
    c.(status := ARCHIVED)
  }

  /** Publishing and then archiving a draft leaves it ARCHIVED with its publication time; no
      further publish is possible, since only drafts publish. */
  lemma PublishThenArchive(c: CourseRecord, now: int)
    requires c.status == DRAFT
    ensures var a := Archived(Published(c, now));
            a.status == ARCHIVED && a.publishedAt == Some(now) && a.status != DRAFT
            && a.(status := c.status, publishedAt := c.publishedAt) == c
  {
  }

  /** The tags of `base` are still in `repo`, unchanged. */
  ghost predicate KeepsBase(base: map<string, Tag>, repo: map<string, Tag>) {
    forall k :: k in base ==> k in repo && repo[k] == base[k]
  }

  /** Every tag is stored under its lower-case name. */
  predicate KeyedByLowerName(repo: map<string, Tag>) {
    forall k :: k in repo ==> Lower(repo[k].name) == k
  }

  /** Every key not in `base` is the lower case of one of the first `i` names. */
  ghost predicate KeysFromNames(names: seq<string>, i: nat, base: map<string, Tag>, repo: map<string, Tag>)
    requires i <= |names|
  {
    forall k :: k in repo ==> k in base || exists j :: 0 <= j < i && Lower(names[j]) == k
  }

  /** Each of the first `i` names has a tag whose slug is collected. */
  ghost predicate NamesCollected(names: seq<string>, i: nat, repo: map<string, Tag>, slugs: set<string>)
    requires i <= |names|
  {
    forall j :: 0 <= j < i ==> Lower(names[j]) in repo && repo[Lower(names[j])].slug in slugs
  }

  /** Each collected slug is that of the tag of one of the first `i` names. */
  ghost predicate SlugsFromNames(names: seq<string>, i: nat, repo: map<string, Tag>, slugs: set<string>)
    requires i <= |names|
  {
    forall s :: s in slugs ==> exists j :: 0 <= j < i && Lower(names[j]) in repo && repo[Lower(names[j])].slug == s
  }

  /** What `handleTags` has done after the first `i` names, starting from repository `base`:
      the old tags kept, every tag under its lower-case name, every new key from one of those
      names, and `slugs` exactly the slugs of their tags. */
  ghost predicate Collected(names: seq<string>, i: nat, base: map<string, Tag>, repo: map<string, Tag>, slugs: set<string>)
    requires i <= |names|
  {
    KeepsBase(base, repo) && KeyedByLowerName(repo) && KeysFromNames(names, i, base, repo)
    && NamesCollected(names, i, repo, slugs) && SlugsFromNames(names, i, repo, slugs)
  }

  lemma KeysFromNamesStep(names: seq<string>, i: nat, base: map<string, Tag>, repo: map<string, Tag>,
                          repo': map<string, Tag>, t: Tag)
    requires i < |names| && KeysFromNames(names, i, base, repo)
    requires repo' == repo || repo' == repo[Lower(names[i]) := t]
    ensures KeysFromNames(names, i + 1, base, repo')
  {
    forall k | k in repo'
      ensures k in base || exists j :: 0 <= j < i + 1 && Lower(names[j]) == k
    {
      if k !in repo {
        assert Lower(names[i]) == k;
      }
    }
  }

  lemma NamesCollectedStep(names: seq<string>, i: nat, repo: map<string, Tag>, repo': map<string, Tag>,
                           slugs: set<string>, t: Tag)
    requires i < |names| && NamesCollected(names, i, repo, slugs)
    requires KeepsBase(repo, repo') && Lower(names[i]) in repo' && repo'[Lower(names[i])] == t
    ensures NamesCollected(names, i + 1, repo', slugs + {t.slug})
  {
  }

  lemma SlugsFromNamesStep(names: seq<string>, i: nat, repo: map<string, Tag>, repo': map<string, Tag>,
                           slugs: set<string>, t: Tag)
    requires i < |names| && SlugsFromNames(names, i, repo, slugs)
    requires KeepsBase(repo, repo') && Lower(names[i]) in repo' && repo'[Lower(names[i])] == t
    ensures SlugsFromNames(names, i + 1, repo', slugs + {t.slug})
  {
    forall s | s in slugs + {t.slug}
      ensures exists j :: 0 <= j < i + 1 && Lower(names[j]) in repo' && repo'[Lower(names[j])].slug == s
    {
      if s !in slugs {
        assert Lower(names[i]) in repo' && repo'[Lower(names[i])].slug == s;
      } else {
        var j :| 0 <= j < i && Lower(names[j]) in repo && repo[Lower(names[j])].slug == s;
        assert Lower(names[j]) in repo' && repo'[Lower(names[j])].slug == s;
      }
    }
  }

  /** Looking up one more name, and creating its tag when it is missing, extends `Collected`. */
  lemma CollectedStep(names: seq<string>, i: nat, base: map<string, Tag>, repo: map<string, Tag>,
                      repo': map<string, Tag>, slugs: set<string>, t: Tag)
    requires i < |names| && Collected(names, i, base, repo, slugs)
    requires Lower(names[i]) in repo ==> repo' == repo && t == repo[Lower(names[i])]
    requires Lower(names[i]) !in repo ==> repo' == repo[Lower(names[i]) := t] && t.name == names[i]
    ensures Collected(names, i + 1, base, repo', slugs + {t.slug})
  {
    assert KeepsBase(repo, repo');
    KeysFromNamesStep(names, i, base, repo, repo', t);
    NamesCollectedStep(names, i, repo, repo', slugs, t);
    SlugsFromNamesStep(names, i, repo, repo', slugs, t);
  }

  /** Once every name is looked up, `Collected` speaks of the names themselves. */
  lemma CollectedAll(names: seq<string>, base: map<string, Tag>, repo: map<string, Tag>, slugs: set<string>)
    requires Collected(names, |names|, base, repo, slugs)
    ensures forall k :: k in repo ==> k in base || exists n :: n in names && Lower(n) == k
    ensures forall n :: n in names ==> Lower(n) in repo && repo[Lower(n)].slug in slugs
    ensures forall s :: s in slugs ==> exists n :: n in names && Lower(n) in repo && repo[Lower(n)].slug == s
  {
    forall k | k in repo && k !in base
      ensures exists n :: n in names && Lower(n) == k
    {
      var j :| 0 <= j < |names| && Lower(names[j]) == k;
      assert names[j] in names;
    }
    forall s | s in slugs
      ensures exists n :: n in names && Lower(n) in repo && repo[Lower(n)].slug == s
    {
      var j :| 0 <= j < |names| && Lower(names[j]) in repo && repo[Lower(names[j])].slug == s;
      assert names[j] in names;
    }
  }

  class CourseServiceImpl {
    /** The tag repository, keyed by the lower-case tag name it is looked up by. */
    var tagRepository: map<string, Tag>

    constructor (tags: map<string, Tag>)
      ensures tagRepository == tags
    {
      tagRepository := tags;
    }

    /** Every tag is stored under its lower-case name. */
    predicate TagsValid()
      reads this
    {
      KeyedByLowerName(tagRepository)
    }

    /** `ensureUniqueSlug`: the base when it is free, otherwise base-2, base-3, ... until a
        slug is free. `taken` is the set of slugs `existsBySlug` reports. */
    method EnsureUniqueSlug(baseSlug: string, taken: set<string>) returns (slug: string)
      ensures Slugs.IsLeastFreeSlug(baseSlug, taken, slug)
    {
      slug := baseSlug;
      var counter: nat := 2;
      ghost var seen: set<string> := {};
      while slug in taken
        invariant counter >= 2
        invariant counter == 2 ==> slug == baseSlug && seen == {}
        invariant counter > 2 ==> baseSlug in taken && slug == Slugs.Candidate(baseSlug, counter - 1)
        invariant forall m: nat :: 2 <= m < counter - 1 ==> Slugs.Candidate(baseSlug, m) in taken
        invariant seen <= taken
        invariant forall s :: s in seen ==> s == baseSlug || exists m: nat :: 2 <= m < counter - 1 && s == Slugs.Candidate(baseSlug, m)
        decreases taken - seen
      {
        if slug in seen && slug != baseSlug {
          var m: nat :| 2 <= m < counter - 1 && slug == Slugs.Candidate(baseSlug, m);
          Slugs.CandidateInjective(baseSlug, m, counter - 1);
        }
        seen := seen + {slug};
        slug := Slugs.Candidate(baseSlug, counter);
        counter := counter + 1;
      }
    }

    /** One step of `handleTags`: the tag stored under the name's lower case, or a new tag
        (counter 0, slug generated from the name) added to `repo` under it. */
    static method FindOrCreateTag(repo: map<string, Tag>, name: string, nfd: string -> string)
      returns (repo': map<string, Tag>, t: Tag)
      ensures Lower(name) in repo ==> repo' == repo && t == repo[Lower(name)]
      ensures Lower(name) !in repo ==>
                fresh(t) && repo' == repo[Lower(name) := t]
                && t.name == name && t.usageCount == Some(0) && t.slug == Slugs.GenerateSlug(Some(name), nfd)
    {
      var key := Lower(name);
      if key in repo {
        return repo, repo[key];
      }
      t := new Tag(name, Slugs.GenerateSlug(Some(name), nfd));
      repo' := repo[key := t];
    }

    /** `handleTags`: no names, no tags. Otherwise each name is looked up ignoring case, and a
        tag is created when none exists (see `FindOrCreateTag`). Tags are equal when their
        slugs are, so the result is the set of the slugs of the tags found or made. */
    method HandleTags(tagNames: Option<seq<string>>, nfd: string -> string) returns (slugs: set<string>)
      requires TagsValid()
      modifies this
      ensures TagsValid()
      ensures tagNames.None? || |tagNames.value| == 0 ==> slugs == {} && tagRepository == old(tagRepository)
      ensures forall k :: k in old(tagRepository) ==> k in tagRepository && tagRepository[k] == old(tagRepository)[k]
      ensures forall k :: k in tagRepository ==> k in old(tagRepository) || (tagNames.Some? && exists n :: n in tagNames.value && Lower(n) == k)
      ensures tagNames.Some? ==> forall n :: n in tagNames.value ==> Lower(n) in tagRepository && tagRepository[Lower(n)].slug in slugs
      ensures tagNames.Some? ==> forall s :: s in slugs ==> exists n :: n in tagNames.value && Lower(n) in tagRepository && tagRepository[Lower(n)].slug == s
    {
      if tagNames.None? || |tagNames.value| == 0 {
        return {};
      }
      var names := tagNames.value;
      var repo := tagRepository;
      slugs := {};
      var i := 0;
      while i < |names|
        invariant 0 <= i <= |names|
        invariant tagRepository == old(tagRepository)
        invariant Collected(names, i, tagRepository, repo, slugs)
      {
        var t;
        ghost var before := repo;
        repo, t := FindOrCreateTag(repo, names[i], nfd);
        CollectedStep(names, i, tagRepository, before, repo, slugs, t);
        slugs := slugs + {t.slug};
        i := i + 1;
      }
      CollectedAll(names, tagRepository, repo, slugs);
      tagRepository := repo;
    }

    /** `createCourse`: the user must exist and be an instructor or admin, a given category
        must exist; the course is a DRAFT under a free slug made from the title. */
    method CreateCourse(req: CreateCourseRequest, instructorId: string, instructor: User?, categories: set<string>,
                        takenSlugs: set<string>, id: string, nfd: string -> string)
      returns (r: Result<Course, CourseError>)
      requires instructor != null ==> instructor.id == instructorId
      requires TagsValid()
      modifies this
      ensures TagsValid()
      ensures instructor == null ==> r == Failure(ResourceNotFound("User", "id", instructorId))
      ensures instructor != null && !IsInstructorOrAdmin(instructor.role) ==>
                r == Failure(InvalidOperation("User must be an instructor or admin to create courses"))
      ensures instructor != null && IsInstructorOrAdmin(instructor.role) && req.categoryId.Some? && req.categoryId.value !in categories ==>
                r == Failure(ResourceNotFound("Category", "id", req.categoryId.value))
      ensures r.Failure? ==> tagRepository == old(tagRepository)
      ensures r.Success? <==>
                instructor != null && IsInstructorOrAdmin(instructor.role) && (req.categoryId.None? || req.categoryId.value in categories)
      ensures r.Success? ==>
                var c := r.value;
                fresh(c) && c.Snapshot() == NewCourse(id, req, c.slug, c.tags, instructorId)
                && Slugs.IsLeastFreeSlug(Slugs.GenerateSlug(Some(req.title), nfd), takenSlugs, c.slug)
                && (req.tags.None? || |req.tags.value| == 0 ==> c.tags == {})
                && (req.tags.Some? ==> forall n :: n in req.tags.value ==> Lower(n) in tagRepository && tagRepository[Lower(n)].slug in c.tags)
                && (req.tags.Some? ==> forall s :: s in c.tags ==> exists n :: n in req.tags.value && Lower(n) in tagRepository && tagRepository[Lower(n)].slug == s)
    {
      if instructor == null {
        return Failure(ResourceNotFound("User", "id", instructorId));
      }
      if !IsInstructorOrAdmin(instructor.role) {
        return Failure(InvalidOperation("User must be an instructor or admin to create courses"));
      }
      if req.categoryId.Some? && req.categoryId.value !in categories {
        return Failure(ResourceNotFound("Category", "id", req.categoryId.value));
      }
      var slug := EnsureUniqueSlug(Slugs.GenerateSlug(Some(req.title), nfd), takenSlugs);
      var tags := HandleTags(req.tags, nfd);
      var c := new Course.FromRecord(NewCourse(id, req, slug, tags, instructorId));
      return Success(c);
    }

    /** `publishCourse`: after the ownership check, only a DRAFT publishes; it becomes
        PUBLISHED with the publication time set. On every error the course is unchanged. */
    method PublishCourse(courseId: string, course: Course?, userId: string, user: User?, now: int)
      returns (r: Outcome<CourseError>)
      requires course != null ==> course.id == courseId
      requires user != null ==> user.id == userId
      modifies course
      ensures course == null ==> r == Fail(ResourceNotFound("Course", "id", courseId))
      ensures course != null ==>
                var check := CheckOwnershipOrAdmin(old(course.Snapshot()), userId, if user == null then None else Some(user.Snapshot()));
                (check.Fail? ==> r == check && course.Snapshot() == old(course.Snapshot()))
                && (check.Pass? && old(course.status) != DRAFT ==>
                      r == Fail(InvalidOperation("Only draft courses can be published.")) && course.Snapshot() == old(course.Snapshot()))
                && (check.Pass? && old(course.status) == DRAFT ==>
                      r == Pass && course.Snapshot() == Published(old(course.Snapshot()), now))
    {
      if course == null {
        return Fail(ResourceNotFound("Course", "id", courseId));
      }
      var check := CheckOwnershipOrAdmin(course.Snapshot(), userId, if user == null then None else Some(user.Snapshot()));
      if check.Fail? {
        return check;
      }
      if course.status != DRAFT {
        return Fail(InvalidOperation("Only draft courses can be published."));
      }
      course.SetStatus(PUBLISHED);
      course.SetPublishedAt(Some(now));
      return Pass;
    }

    /** `archiveCourse`: after the ownership check, only a PUBLISHED course is archived. */
    method ArchiveCourse(courseId: string, course: Course?, userId: string, user: User?)
      returns (r: Outcome<CourseError>)
      requires course != null ==> course.id == courseId
      requires user != null ==> user.id == userId
      modifies course
      ensures course == null ==> r == Fail(ResourceNotFound("Course", "id", courseId))
      ensures course != null ==>
                var check := CheckOwnershipOrAdmin(old(course.Snapshot()), userId, if user == null then None else Some(user.Snapshot()));
                (check.Fail? ==> r == check && course.Snapshot() == old(course.Snapshot()))
                && (check.Pass? && old(course.status) != PUBLISHED ==>
                      r == Fail(InvalidOperation("Only published courses can be archived.")) && course.Snapshot() == old(course.Snapshot()))
                && (check.Pass? && old(course.status) == PUBLISHED ==>
                      r == Pass && course.Snapshot() == Archived(old(course.Snapshot())))
    {
      if course == null {
        return Fail(ResourceNotFound("Course", "id", courseId));
      }
      var check := CheckOwnershipOrAdmin(course.Snapshot(), userId, if user == null then None else Some(user.Snapshot()));
      if check.Fail? {
        return check;
      }
      if course.status != PUBLISHED {
        return Fail(InvalidOperation("Only published courses can be archived."));
      }
      course.SetStatus(ARCHIVED);
      return Pass;
    }
  }
}
