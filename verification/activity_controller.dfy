/** The certificate (activity) request handlers of the server, over a store of
    activity documents keyed by id. Every handler but the teacher's listing is
    scoped to the calling user, whose id the authentication layer supplies. */
module ActivityController {
  import opened Seqs
  import opened Text
  import UploadModal

  /** A document id (an ObjectId in the database). */
  type Id = string

  /** A stored activity document; `owner` is the `userId` reference to its student. */
  datatype Activity = Activity(owner: Id, eventName: string, description: string, date: int, eventType: string, file: string)

  /** The fields a create or update request carries; `file` may be left out. */
  datatype Body = Body(eventName: string, description: string, date: int, eventType: string, file: Option<string>)

  /** A document as sent to the browser: the owner reference replaced by the
      owner's roll number and id, and the description left out of the teacher's listing. */
  datatype ActivityView = ActivityView(
    id: Id, eventName: string, description: Option<string>, date: int,
    eventType: string, file: string, rollno: string, userId: Option<Id>)

  const DefaultFile := "uploads/default_certificate.pdf"

  /** `saveFileToStorage`: keep the uploaded data (whether or not it is a data URL);
      with nothing uploaded, point at the default certificate. */
  function SaveFileToStorage(file: Option<string>): (r: string)
    ensures file.Some? && file.value != "" ==> r == file.value
    ensures file.None? || file.value == "" ==> r == DefaultFile
  {
    if file.Some? && StartsWith(file.value, "data:") then file.value
    else if file.Some? && file.value != "" then file.value
    else DefaultFile
  }

  /** A stored file reference is never empty, and storing it again keeps it. */
  lemma SaveFileToStorageStable(file: Option<string>)
    ensures SaveFileToStorage(file) != ""
    ensures SaveFileToStorage(Some(SaveFileToStorage(file))) == SaveFileToStorage(file)
  {
  }

  /** A PDF picked in the upload form is stored exactly as the form sent it. */
  lemma PdfStoredAsSent(file: string)
    requires UploadModal.IsPdf(file)
    ensures SaveFileToStorage(Some(file)) == file
  {
  }

  /** The remap after `populate`: the owner's roll number (or "N/A" when the owner
      is not found) and the owner's id (or null); every other field is copied. */
  function Remap(id: Id, a: Activity, students: map<Id, string>): ActivityView {
    var found := a.owner in students;
    ActivityView(id, a.eventName, Some(a.description), a.date, a.eventType, a.file,
                 if found then students[a.owner] else "N/A",
                 if found then Some(a.owner) else None)
  }

  /** The teacher's listing row: the remapped document without its description. */
  function Summary(id: Id, a: Activity, students: map<Id, string>): ActivityView {
    Remap(id, a, students).(description := None)
  }

  /** The remap keeps the document's own fields and reports the owner as found
      or not found consistently. */
  lemma RemapFields(id: Id, a: Activity, students: map<Id, string>)
    ensures var v := Remap(id, a, students);
      v.id == id && v.eventName == a.eventName && v.description == Some(a.description) &&
      v.date == a.date && v.eventType == a.eventType && v.file == a.file &&
      (v.userId.Some? <==> a.owner in students) &&
      (v.userId.Some? ==> v.userId.value == a.owner && v.rollno == students[a.owner]) &&
      (v.userId.None? ==> v.rollno == "N/A")
  {
  }

  /** The views of the documents owned by `user`. */
  function OwnedViews(docs: map<Id, Activity>, students: map<Id, string>, user: Id): set<ActivityView> {
    set id | id in docs && docs[id].owner == user :: Remap(id, docs[id], students)
  }

  /** The summaries of every document. */
  function AllSummaries(docs: map<Id, Activity>, students: map<Id, string>): set<ActivityView> {
    set id | id in docs :: Summary(id, docs[id], students)
  }

  /** `sort({date: -1})`: newest first. */
  ghost predicate SortedByDateDesc(vs: seq<ActivityView>) {
    forall i, j :: 0 <= i < j < |vs| ==> vs[i].date >= vs[j].date
  }

  /** Inserts a view into a newest-first list, before the first view that is not
      strictly newer than it. */
  function InsertByDate(vs: seq<ActivityView>, v: ActivityView): (r: seq<ActivityView>)
    ensures multiset(r) == multiset(vs) + multiset{v}
    ensures forall x :: x in r <==> x in vs || x == v
  {
    if vs == [] then [v]
    else if v.date >= vs[0].date then [v] + vs
    else
      assert vs == [vs[0]] + vs[1..];
      [vs[0]] + InsertByDate(vs[1..], v)
  }

  /** Insertion keeps a newest-first list newest first. */
  lemma {:induction false} InsertByDateSorted(vs: seq<ActivityView>, v: ActivityView)
    requires SortedByDateDesc(vs)
    ensures SortedByDateDesc(InsertByDate(vs, v))
  {
    if vs != [] && v.date < vs[0].date {
      var rest := InsertByDate(vs[1..], v);
      InsertByDateSorted(vs[1..], v);
      forall x | x in rest ensures x.date <= vs[0].date {
        if x != v {
          var k :| 0 <= k < |vs[1..]| && vs[1..][k] == x;
          assert vs[k + 1] == x;
        }
      }
      var r := [vs[0]] + rest;
      forall i, j | 0 <= i < j < |r| ensures r[i].date >= r[j].date {
        if i > 0 {
          assert r[i] == rest[i - 1] && r[j] == rest[j - 1];
        } else {
          assert r[j] in rest;
        }
      }
    }
  }

  /** The views of the documents named by `ids`, newest first, each exactly once. */
  method SortedViews(ids: set<Id>, view: Id --> ActivityView) returns (vs: seq<ActivityView>)
    requires forall id :: id in ids ==> view.requires(id) && view(id).id == id
    ensures SortedByDateDesc(vs)
    ensures multiset(vs) == multiset(set id | id in ids :: view(id))
  {
    var rest := ids;
    vs := [];
    while rest != {}
      invariant rest <= ids
      invariant SortedByDateDesc(vs)
      invariant multiset(vs) == multiset(set id | id in ids - rest :: view(id))
      decreases |rest|
    {
      var id :| id in rest;
      ghost var before := set k | k in ids - rest :: view(k);
      ghost var after := set k | k in ids - (rest - {id}) :: view(k);
      assert view(id) !in before;
      assert after == before + {view(id)};
      InsertByDateSorted(vs, view(id));
      vs := InsertByDate(vs, view(id));
      rest := rest - {id};
    }
  }

  /** Owned documents, as the ids a listing collects. */
  function OwnedIds(docs: map<Id, Activity>, user: Id): set<Id> {
    set id | id in docs && docs[id].owner == user
  }

  // ---------------------------------------------------------------------------
  // The store transitions, as functions of the store before the request
  // ---------------------------------------------------------------------------

  /** The document a create request builds for `user`. */
  function Created(user: Id, body: Body): Activity {
    Activity(user, body.eventName, body.description, body.date, body.eventType, SaveFileToStorage(body.file))
  }

  /** The schema's required text fields are present (the file always is). */
  predicate Storable(a: Activity) {
    a.eventName != "" && a.eventType != "" && a.file != ""
  }

  /** `findOneAndUpdate({_id: id, userId: user}, …)`: the new store, or None when no
      document has that id and owner. */
  function Updated(docs: map<Id, Activity>, user: Id, id: Id, body: Body): Option<map<Id, Activity>> {
    if id in docs && docs[id].owner == user then
      Some(docs[id := docs[id].(eventName := body.eventName, description := body.description,
                                date := body.date, eventType := body.eventType,
                                file := SaveFileToStorage(body.file))])
    else None
  }

  /** `findOneAndDelete({_id: id, userId: user})`: the new store, or None when no
      document has that id and owner. */
  function Deleted(docs: map<Id, Activity>, user: Id, id: Id): Option<map<Id, Activity>> {
    if id in docs && docs[id].owner == user then Some(docs - {id}) else None
  }

  /** An update succeeds exactly for the owner of an existing document; it keeps
      every id and every owner, rewrites that document's fields from the request
      (the file defaulted), and changes no other document. */
  lemma UpdateIsOwnerScoped(docs: map<Id, Activity>, user: Id, id: Id, body: Body)
    ensures var r := Updated(docs, user, id, body);
      (r.Some? <==> id in docs && docs[id].owner == user) &&
      (r.Some? ==>
        r.value.Keys == docs.Keys &&
        (forall k :: k in docs ==> r.value[k].owner == docs[k].owner) &&
        (forall k :: k in docs && k != id ==> r.value[k] == docs[k]) &&
        r.value[id] == Activity(docs[id].owner, body.eventName, body.description, body.date,
                                body.eventType, SaveFileToStorage(body.file)))
  {
  }

  /** A delete succeeds exactly for the owner of an existing document, removes that
      document only, and leaves every other document as it was. */
  lemma DeleteIsOwnerScoped(docs: map<Id, Activity>, user: Id, id: Id)
    ensures var r := Deleted(docs, user, id);
      (r.Some? <==> id in docs && docs[id].owner == user) &&
      (r.Some? ==>
        r.value.Keys == docs.Keys - {id} &&
        (forall k :: k in r.value ==> r.value[k] == docs[k]))
  {
  }

  /** No request by one user changes a document owned by someone else. */
  lemma OthersDocumentsUntouched(docs: map<Id, Activity>, user: Id, id: Id, body: Body, k: Id)
    requires k in docs && docs[k].owner != user
    ensures Updated(docs, user, id, body).Some? ==> Updated(docs, user, id, body).value[k] == docs[k]
    ensures Deleted(docs, user, id).Some? ==> k in Deleted(docs, user, id).value &&
                                              Deleted(docs, user, id).value[k] == docs[k]
  {
  }

  class ActivityStore {
    var docs: map<Id, Activity>
    /** The students' roll numbers by id, which `populate` reads. */
    const students: map<Id, string>

    constructor (docs: map<Id, Activity>, students: map<Id, string>)
      ensures this.docs == docs && this.students == students
    {
      this.docs := docs;
      this.students := students;
    }

    /** `getactivityModels`: without a user id, 400; otherwise the caller's
        documents, newest first, each exactly once. */
    method GetActivities(userId: Option<Id>) returns (status: int, views: seq<ActivityView>)
      ensures userId.None? ==> status == 400 && views == []
      ensures userId.Some? ==>
        status == 200 && SortedByDateDesc(views) &&
        multiset(views) == multiset(OwnedViews(docs, students, userId.value))
    {
      if userId.None? {
        return 400, [];
      }
      var user := userId.value;
      var d, s := docs, students;
      views := SortedViews(OwnedIds(d, user), id requires id in d => Remap(id, d[id], s));
      assert (set id | id in OwnedIds(d, user) :: Remap(id, d[id], s)) == OwnedViews(d, s, user);
      status := 200;
    }

    /** `addactivityModel`: store one new document owned by the caller, the file
        passed through `saveFileToStorage`; a document the schema refuses, or an id
        already taken, is a 500 and the store is unchanged. */
    method AddActivity(user: Id, body: Body, newId: Id) returns (status: int, view: Option<ActivityView>)
      modifies this
      ensures var a := Created(user, body);
        if newId !in old(docs) && Storable(a) then
          docs == old(docs)[newId := a] && status == 201 && view == Some(Remap(newId, a, students))
        else
          docs == old(docs) && status == 500 && view == None
    {
      var a := Activity(user, body.eventName, body.description, body.date, body.eventType,
                        SaveFileToStorage(body.file));
      if newId in docs || a.eventName == "" || a.eventType == "" || a.file == "" {
        return 500, None;
      }
      docs := docs[newId := a];
      status, view := 201, Some(Remap(newId, a, students));
    }

    /** `updateactivityModel`: only the owner can update a document; otherwise 404
        and the store is unchanged. */
    method UpdateActivity(user: Id, id: Id, body: Body) returns (status: int, view: Option<ActivityView>)
      modifies this
      ensures var r := Updated(old(docs), user, id, body);
        if r.Some? then
          docs == r.value && status == 200 && view == Some(Remap(id, docs[id], students))
        else
          docs == old(docs) && status == 404 && view == None
    {
      var fileData := SaveFileToStorage(body.file);
      if id !in docs || docs[id].owner != user {
        return 404, None;
      }
      docs := docs[id := docs[id].(eventName := body.eventName, description := body.description,
                                   date := body.date, eventType := body.eventType, file := fileData)];
      status, view := 200, Some(Remap(id, docs[id], students));
    }

    /** `deleteactivityModel`: only the owner can delete a document; otherwise 404
        and the store is unchanged. */
    method DeleteActivity(user: Id, id: Id) returns (status: int)
      modifies this
      ensures var r := Deleted(old(docs), user, id);
        if r.Some? then docs == r.value && status == 200
        else docs == old(docs) && status == 404
    {
      if id !in docs || docs[id].owner != user {
        return 404;
      }
      docs := docs - {id};
      status := 200;
    }

    /** `getallactivityModels`: every document, newest first, without its description. */
    method GetAllActivities() returns (status: int, views: seq<ActivityView>)
      ensures status == 200
      ensures SortedByDateDesc(views)
      ensures multiset(views) == multiset(AllSummaries(docs, students))
      ensures forall v :: v in views ==> v.description.None?
    {
      var d, s := docs, students;
      views := SortedViews(d.Keys, id requires id in d => Summary(id, d[id], s));
      assert (set id | id in d.Keys :: Summary(id, d[id], s)) == AllSummaries(d, s);
      forall v | v in views ensures v.description.None? {
        assert v in multiset(views);
        var id :| id in d && v == Summary(id, d[id], s);
      }
      status := 200;
    }
  }
}
