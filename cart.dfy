/** The portal prototype's enrollment cart: enrolling in a section toggles it,
    replacing any other section of the same course, and removal filters by section. */
module Cart {
  import opened SeqUtil

  /** A weekly meeting as the catalog lists it, e.g. `("Mon", "09:00 - 10:30")`. */
  datatype Meeting = Meeting(day: string, time: string)

  datatype CatalogSection = CatalogSection(id: string, status: string, schedule: seq<Meeting>)

  datatype Course = Course(code: string, name: string, sections: seq<CatalogSection>)

  datatype CartItem = CartItem(courseCode: string, courseName: string, sectionId: string, schedule: seq<Meeting>)

  /** JavaScript's `findIndex`: the first index whose element satisfies `p`, or -1. */
  function FindIndex<T>(xs: seq<T>, p: T -> bool): (r: int)
    ensures -1 <= r < |xs|
    ensures r >= 0 ==> p(xs[r]) && forall i :: 0 <= i < r ==> !p(xs[i])
    ensures r < 0 ==> forall i :: 0 <= i < |xs| ==> !p(xs[i])
  {
    if xs == [] then -1
    else if p(xs[0]) then 0
    else
      var k := FindIndex(xs[1..], p);
      if k < 0 then -1 else k + 1
  }

  function SectionIndex(cart: seq<CartItem>, sectionId: string): (r: int)
    ensures -1 <= r < |cart|
    ensures r >= 0 ==> cart[r].sectionId == sectionId && forall i :: 0 <= i < r ==> cart[i].sectionId != sectionId
    ensures r < 0 ==> forall i :: 0 <= i < |cart| ==> cart[i].sectionId != sectionId
  {
    FindIndex(cart, (item: CartItem) => item.sectionId == sectionId)
  }

  function CourseIndex(cart: seq<CartItem>, courseCode: string): int {
    FindIndex(cart, (item: CartItem) => item.courseCode == courseCode)
  }

  /** `i` is the index `find` stops at: the first course with the code. */
  predicate FirstCourse(catalog: seq<Course>, i: int, courseCode: string) {
    && 0 <= i < |catalog| && catalog[i].code == courseCode
    && forall k :: 0 <= k < i ==> catalog[k].code != courseCode
  }

  /** `j` is the index `find` stops at among the sections: the first with the id. */
  predicate FirstSection(sections: seq<CatalogSection>, j: int, sectionId: string) {
    && 0 <= j < |sections| && sections[j].id == sectionId
    && forall k :: 0 <= k < j ==> sections[k].id != sectionId
  }

  /** `getSectionSchedule`: the schedule of the first matching section of the first
      course with the code, and no meetings when either is missing. */
  function SectionSchedule(catalog: seq<Course>, courseCode: string, sectionId: string): (r: seq<Meeting>)
    ensures (forall i :: 0 <= i < |catalog| ==> catalog[i].code != courseCode) ==> r == []
    ensures forall i :: FirstCourse(catalog, i, courseCode) ==>
      && ((forall j :: 0 <= j < |catalog[i].sections| ==> catalog[i].sections[j].id != sectionId) ==> r == [])
      && (forall j :: FirstSection(catalog[i].sections, j, sectionId) ==> r == catalog[i].sections[j].schedule)
  {
    var c := FindIndex(catalog, (course: Course) => course.code == courseCode);
    if c < 0 then []
    else
      var sections := catalog[c].sections;
      var s := FindIndex(sections, (section: CatalogSection) => section.id == sectionId);
      if s < 0 then [] else sections[s].schedule
  }

  /** The entry `handleEnroll` pushes. */
  function NewItem(catalog: seq<Course>, courseCode: string, courseName: string, sectionId: string): CartItem {
    CartItem(courseCode, courseName, sectionId, SectionSchedule(catalog, courseCode, sectionId))
  }

  /** The cart with the first entry of the course spliced out, if there is one. */
  function DropCourse(cart: seq<CartItem>, courseCode: string): (r: seq<CartItem>)
    ensures OnePerCourse(cart) ==> forall i :: 0 <= i < |r| ==> r[i].courseCode != courseCode
    ensures forall item :: item in r ==> item in cart
    ensures forall k :: FirstOfCourse(cart, k, courseCode) ==> r == RemoveAt(cart, k)
    ensures (forall i :: 0 <= i < |cart| ==> cart[i].courseCode != courseCode) ==> r == cart
  {
    var same := CourseIndex(cart, courseCode);
    CourseIndexIsFirst(cart, courseCode);
    if same >= 0 then
      RemoveAtFacts(cart, same);
      RemoveAt(cart, same)
    else cart
  }

  /** `findIndex` on the course code stops at the one first entry of the course, and
      finds nothing exactly when the cart has no entry of the course. */
  lemma CourseIndexIsFirst(cart: seq<CartItem>, courseCode: string)
    ensures forall k :: FirstOfCourse(cart, k, courseCode) ==> k == CourseIndex(cart, courseCode)
    ensures CourseIndex(cart, courseCode) >= 0 ==> FirstOfCourse(cart, CourseIndex(cart, courseCode), courseCode)
    ensures CourseIndex(cart, courseCode) < 0 <==> forall i :: 0 <= i < |cart| ==> cart[i].courseCode != courseCode
  {
  }

  /** The cart after `handleEnroll`: closed sections change nothing; a section already
      in the cart is taken out; otherwise the course's earlier entry, if any, is taken
      out and the section is appended. */
  function Enrolled(cart: seq<CartItem>, catalog: seq<Course>,
                    courseCode: string, courseName: string, sectionId: string, status: string): seq<CartItem>
  {
    if status != "open" then cart
    else
      var existing := SectionIndex(cart, sectionId);
      if existing >= 0 then RemoveAt(cart, existing)
      else DropCourse(cart, courseCode) + [NewItem(catalog, courseCode, courseName, sectionId)]
  }

  /** The cart invariant: no two entries share a course code. */
  predicate OnePerCourse(cart: seq<CartItem>) {
    forall i, j :: 0 <= i < j < |cart| ==> cart[i].courseCode != cart[j].courseCode
  }

  predicate HasSection(cart: seq<CartItem>, sectionId: string) {
    exists i :: 0 <= i < |cart| && cart[i].sectionId == sectionId
  }

  /** `k` is the index `findIndex` stops at: the first entry of the course. */
  predicate FirstOfCourse(cart: seq<CartItem>, k: int, courseCode: string) {
    && 0 <= k < |cart| && cart[k].courseCode == courseCode
    && forall i :: 0 <= i < k ==> cart[i].courseCode != courseCode
  }

  /** `k` is the index `findIndex` stops at: the first entry of the section. */
  predicate FirstOfSection(cart: seq<CartItem>, k: int, sectionId: string) {
    && 0 <= k < |cart| && cart[k].sectionId == sectionId
    && forall i :: 0 <= i < k ==> cart[i].sectionId != sectionId
  }

  /** Splicing one entry out keeps the rest, and with it the invariant; under the
      invariant no other entry has the removed entry's course. */
  lemma RemoveAtFacts(cart: seq<CartItem>, k: int)
    requires 0 <= k < |cart|
    ensures forall item :: item in RemoveAt(cart, k) ==> item in cart
    ensures OnePerCourse(cart) ==> OnePerCourse(RemoveAt(cart, k))
    ensures OnePerCourse(cart) ==>
      forall i :: 0 <= i < |cart| - 1 ==> RemoveAt(cart, k)[i].courseCode != cart[k].courseCode
  {
    var r := RemoveAt(cart, k);
    forall item | item in r ensures item in cart {
      var i :| 0 <= i < |r| && r[i] == item;
      if i < k { assert cart[i] == item; } else { assert cart[i + 1] == item; }
    }
    if OnePerCourse(cart) {
      forall i, j | 0 <= i < j < |r| ensures r[i].courseCode != r[j].courseCode {
        var i' := if i < k then i else i + 1;
        var j' := if j < k then j else j + 1;
        assert r[i] == cart[i'] && r[j] == cart[j'];
      }
      forall i | 0 <= i < |r| ensures r[i].courseCode != cart[k].courseCode {
        var i' := if i < k then i else i + 1;
        assert r[i] == cart[i'];
      }
    }
  }

  /** A section that is not open leaves the cart as it was. */
  lemma EnrollClosedUnchanged(cart: seq<CartItem>, catalog: seq<Course>,
                              courseCode: string, courseName: string, sectionId: string, status: string)
    requires status != "open"
    ensures Enrolled(cart, catalog, courseCode, courseName, sectionId, status) == cart
  {
  }

  /** Enrolling in a section already in the cart removes its first entry and adds nothing. */
  lemma EnrollTogglesOff(cart: seq<CartItem>, catalog: seq<Course>,
                         courseCode: string, courseName: string, sectionId: string)
    requires HasSection(cart, sectionId)
    ensures var r := Enrolled(cart, catalog, courseCode, courseName, sectionId, "open");
      && |r| == |cart| - 1
      && (exists k :: FirstOfSection(cart, k, sectionId) && r == RemoveAt(cart, k))
      && forall item :: item in r ==> item in cart
  {
    var k := SectionIndex(cart, sectionId);
    assert FirstOfSection(cart, k, sectionId);
    RemoveAtFacts(cart, k);
  }

  /** Enrolling in an open section not in the cart drops the first entry of the same
      course, if there is one, and appends the section with its schedule. */
  lemma EnrollAdds(cart: seq<CartItem>, catalog: seq<Course>,
                   courseCode: string, courseName: string, sectionId: string)
    requires !HasSection(cart, sectionId)
    ensures var r := Enrolled(cart, catalog, courseCode, courseName, sectionId, "open");
      var added := NewItem(catalog, courseCode, courseName, sectionId);
      && added.schedule == SectionSchedule(catalog, courseCode, sectionId)
      && |r| > 0 && r[|r| - 1] == added
      && ((forall i :: 0 <= i < |cart| ==> cart[i].courseCode != courseCode) ==> r == cart + [added])
      && forall k :: FirstOfCourse(cart, k, courseCode) ==> r == RemoveAt(cart, k) + [added]
  {
    assert SectionIndex(cart, sectionId) < 0;
    forall k | FirstOfCourse(cart, k, courseCode) ensures k == CourseIndex(cart, courseCode) {
    }
  }

  /** `handleEnroll` keeps at most one entry per course. */
  lemma EnrollKeepsOnePerCourse(cart: seq<CartItem>, catalog: seq<Course>,
                                courseCode: string, courseName: string, sectionId: string, status: string)
    requires OnePerCourse(cart)
    ensures OnePerCourse(Enrolled(cart, catalog, courseCode, courseName, sectionId, status))
  {
    if status == "open" {
      var existing := SectionIndex(cart, sectionId);
      if existing >= 0 {
        RemoveAtFacts(cart, existing);
      } else {
        var rest := DropCourse(cart, courseCode);
        var r := rest + [NewItem(catalog, courseCode, courseName, sectionId)];
        assert OnePerCourse(rest) by {
          var same := CourseIndex(cart, courseCode);
          if same >= 0 { RemoveAtFacts(cart, same); }
        }
        forall i, j | 0 <= i < j < |r| ensures r[i].courseCode != r[j].courseCode {
          if j < |rest| {
            assert r[i] == rest[i] && r[j] == rest[j];
          } else {
            assert r[i] == rest[i];
          }
        }
      }
    }
  }

  /** Each call changes the length by at most one, and the entries it does not touch
      keep their relative order: the result is the cart, the cart with one entry cut
      out, or either of these with the new entry appended. */
  lemma EnrollShape(cart: seq<CartItem>, catalog: seq<Course>,
                    courseCode: string, courseName: string, sectionId: string, status: string)
    ensures var r := Enrolled(cart, catalog, courseCode, courseName, sectionId, status);
      var added := NewItem(catalog, courseCode, courseName, sectionId);
      && |cart| - 1 <= |r| <= |cart| + 1
      && (|| r == cart
          || r == cart + [added]
          || exists k :: 0 <= k < |cart| && (r == RemoveAt(cart, k) || r == RemoveAt(cart, k) + [added]))
  {
    if status == "open" && SectionIndex(cart, sectionId) < 0 {
      var same := CourseIndex(cart, courseCode);
      if same >= 0 {
        assert DropCourse(cart, courseCode) == RemoveAt(cart, same);
      }
    }
  }

  /** Enrolling twice in an open section that was not in the cart gives back the cart
      without the course's earlier entry: the second call toggles the section off. */
  lemma EnrollTwice(cart: seq<CartItem>, catalog: seq<Course>,
                    courseCode: string, courseName: string, sectionId: string)
    requires !HasSection(cart, sectionId)
    ensures var once := Enrolled(cart, catalog, courseCode, courseName, sectionId, "open");
      Enrolled(once, catalog, courseCode, courseName, sectionId, "open") == DropCourse(cart, courseCode)
  {
    var rest := DropCourse(cart, courseCode);
    var added := NewItem(catalog, courseCode, courseName, sectionId);
    var once := rest + [added];
    assert SectionIndex(cart, sectionId) < 0;
    assert Enrolled(cart, catalog, courseCode, courseName, sectionId, "open") == once;
    assert forall i :: 0 <= i < |rest| ==> once[i].sectionId != sectionId by {
      forall i | 0 <= i < |rest| ensures once[i].sectionId != sectionId {
        assert once[i] == rest[i] && rest[i] in cart;
      }
    }
    assert once[|rest|] == added && added.sectionId == sectionId;
    assert SectionIndex(once, sectionId) == |rest|;
    assert RemoveAt(once, |rest|) == rest;
  }

  /** `removeFromCart`: the entries of other sections, in their original order. */
  function WithoutSection(cart: seq<CartItem>, sectionId: string): (r: seq<CartItem>)
    ensures |r| <= |cart|
    ensures forall item :: item in r <==> item in cart && item.sectionId != sectionId
  {
    if cart == [] then []
    else
      var rest := WithoutSection(cart[1..], sectionId);
      if cart[0].sectionId == sectionId then rest else [cart[0]] + rest
  }

  /** Removal works piece by piece, so it never reorders what it keeps. */
  lemma {:induction false} WithoutSectionAppend(a: seq<CartItem>, b: seq<CartItem>, sectionId: string)
    ensures WithoutSection(a + b, sectionId) == WithoutSection(a, sectionId) + WithoutSection(b, sectionId)
  {
    if a != [] {
      assert (a + b)[1..] == a[1..] + b;
      WithoutSectionAppend(a[1..], b, sectionId);
    } else {
      assert a + b == b;
    }
  }

  /** Removing an absent section changes nothing, and removing twice is removing once. */
  lemma {:induction false} WithoutSectionAbsent(cart: seq<CartItem>, sectionId: string)
    requires !HasSection(cart, sectionId)
    ensures WithoutSection(cart, sectionId) == cart
  {
    if cart != [] {
      assert !HasSection(cart[1..], sectionId) by {
        forall i | 0 <= i < |cart[1..]| ensures cart[1..][i].sectionId != sectionId {
          assert cart[1..][i] == cart[i + 1];
        }
      }
      WithoutSectionAbsent(cart[1..], sectionId);
    }
  }

  lemma WithoutSectionIdempotent(cart: seq<CartItem>, sectionId: string)
    ensures WithoutSection(WithoutSection(cart, sectionId), sectionId) == WithoutSection(cart, sectionId)
  {
    var r := WithoutSection(cart, sectionId);
    assert !HasSection(r, sectionId) by {
      forall i | 0 <= i < |r| ensures r[i].sectionId != sectionId {
        assert r[i] in r;
      }
    }
    WithoutSectionAbsent(r, sectionId);
  }

  lemma TailOnePerCourse(cart: seq<CartItem>)
    requires OnePerCourse(cart) && cart != []
    ensures OnePerCourse(cart[1..])
    ensures forall item :: item in cart[1..] ==> item.courseCode != cart[0].courseCode
  {
    var tail := cart[1..];
    forall i, j | 0 <= i < j < |tail| ensures tail[i].courseCode != tail[j].courseCode {
      assert tail[i] == cart[i + 1] && tail[j] == cart[j + 1];
    }
    forall item | item in tail ensures item.courseCode != cart[0].courseCode {
      var k :| 0 <= k < |tail| && tail[k] == item;
      assert cart[k + 1] == item;
    }
  }

  lemma PrependOnePerCourse(x: CartItem, rest: seq<CartItem>)
    requires OnePerCourse(rest)
    requires forall item :: item in rest ==> item.courseCode != x.courseCode
    ensures OnePerCourse([x] + rest)
  {
    var r := [x] + rest;
    forall i, j | 0 <= i < j < |r| ensures r[i].courseCode != r[j].courseCode {
      assert r[j] == rest[j - 1];
      if i > 0 {
        assert r[i] == rest[i - 1];
      }
    }
  }

  /** Removal keeps the one-entry-per-course invariant. */
  lemma {:induction false} WithoutSectionKeepsOnePerCourse(cart: seq<CartItem>, sectionId: string)
    requires OnePerCourse(cart)
    ensures OnePerCourse(WithoutSection(cart, sectionId))
  {
    if cart != [] {
      TailOnePerCourse(cart);
      WithoutSectionKeepsOnePerCourse(cart[1..], sectionId);
      if cart[0].sectionId != sectionId {
        PrependOnePerCourse(cart[0], WithoutSection(cart[1..], sectionId));
      }
    }
  }

  /** The prototype page's cart over its fixed course catalog. */
  class EnrollmentCart {
    var items: seq<CartItem>
    const catalog: seq<Course>

    ghost predicate Valid()
      reads this
    {
      OnePerCourse(items)
    }

    constructor (courses: seq<Course>)
      ensures Valid()
      ensures items == [] && catalog == courses
    {
      items := [];
      catalog := courses;
    }

    /** `handleEnroll`, through `findIndex`, `splice` and `push`. */
    method HandleEnroll(courseCode: string, courseName: string, sectionId: string, status: string)
      requires Valid()
      modifies this
      ensures Valid()
      ensures items == Enrolled(old(items), catalog, courseCode, courseName, sectionId, status)
    {
      EnrollKeepsOnePerCourse(items, catalog, courseCode, courseName, sectionId, status);
      if status != "open" {
        return;
      }
      var existingIndex := SectionIndex(items, sectionId);
      if existingIndex > -1 {
        items := RemoveAt(items, existingIndex);
      } else {
        var sameCourseIndex := CourseIndex(items, courseCode);
        if sameCourseIndex > -1 {
          items := RemoveAt(items, sameCourseIndex);
        }
        items := items + [CartItem(courseCode, courseName, sectionId, SectionSchedule(catalog, courseCode, sectionId))];
      }
    }

    /** `removeFromCart`: reassign the cart to its filtered copy. */
    method RemoveFromCart(sectionId: string)
      requires Valid()
      modifies this
      ensures Valid()
      ensures items == WithoutSection(old(items), sectionId)
    {
      WithoutSectionKeepsOnePerCourse(items, sectionId);
      items := WithoutSection(items, sectionId);
    }
  }
}
