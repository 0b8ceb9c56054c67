/** The `temp-uploads` storage bucket: uploaded files are stored under a fresh name that
    keeps the original extension, and once the bucket holds MaxFiles listed files the
    oldest are removed until MaxFiles - 1 remain. The storage service's answers (errors,
    timestamps) and `randomUUID` are parameters. */
module TempStorage {
  import opened Wrappers
  import opened Text
  import Validation

  const StorageBucket: string := "temp-uploads"
  const MaxFiles: nat := 10

  const SizeExceededMessage: string :=
    "File size exceeds maximum limit of " + NatToString(Validation.MaxFileSize / 1024 / 1024) + "MB"
  const ListBucketsFailedPrefix: string := "Failed to list storage buckets: "
  const CreateBucketFailedPrefix: string := "Failed to create storage bucket: "
  const UploadFailedPrefix: string := "Failed to upload file to storage: "
  const FileNotFoundPrefix: string := "Temp file not found: "
  const DownloadFailedPrefix: string := "Failed to download file from storage: "
  const DeleteFailedPrefix: string := "Failed to delete file from storage: "
  /** The substring by which a storage error is recognised as "missing". */
  const NotFound: string := "not found"
  const PdfContentType: string := "application/pdf"
  const CsvContentType: string := "text/csv"

  type Bytes = seq<bv8>

  /** An object in the bucket: its name, whether the listing reports an id for it (folder
      placeholders have none), its creation time if the listing has one, and its data. */
  datatype StoredObject = StoredObject(name: string, hasId: bool, createdAt: Option<int>, contentType: string, content: Bytes)

  /** `TempFileInfo`: a listed file. */
  datatype TempFileInfo = TempFileInfo(path: string, createdAt: int)

  /** The bucket's state: whether it has been created, and its objects in storage order. */
  datatype Bucket = Bucket(created: bool, objects: seq<StoredObject>)

  /** The storage service's answers during one `saveTempFile`. */
  datatype SaveFaults = SaveFaults(
    listBuckets: Option<string>,
    createBucket: Option<string>,
    upload: Option<string>,
    list: Option<string>,
    removeFails: set<string>)

  // ---------------------------------------------------------------- stored name

  /** `originalFilename.split('.').pop() || ''`: the text after the last dot, or the whole
      name when it has no dot. */
  function Extension(filename: string): string {
    var pieces := Split(filename, '.');
    pieces[|pieces| - 1]
  }

  /** A string holding the separator splits into more than one piece. */
  lemma {:induction false} SplitSeveral(t: string, d: char)
    requires d in t
    ensures |Split(t, d)| > 1
    decreases |t|
  {
    if t[0] != d {
      assert d in t[1..];
      SplitSeveral(t[1..], d);
    }
  }

  /** Dropping the first character keeps the extension when that character is the dot or
      another dot follows it. */
  lemma ExtensionTail(filename: string)
    requires filename != [] && (filename[0] == '.' || '.' in filename[1..])
    ensures Extension(filename) == Extension(filename[1..])
  {
    var tail := filename[1..];
    var rest := Split(tail, '.');
    if filename[0] != '.' {
      SplitSeveral(tail, '.');
      assert Split(filename, '.') == [[filename[0]] + rest[0]] + rest[1..];
    } else {
      assert Split(filename, '.') == [""] + rest;
    }
  }

  /** The extension ends the name and, when the name has a dot, a dot stands just before it. */
  lemma {:induction false} ExtensionSuffix(filename: string)
    ensures EndsWith(filename, Extension(filename))
    ensures '.' in filename ==>
      |Extension(filename)| < |filename| && filename[|filename| - |Extension(filename)| - 1] == '.'
    decreases |filename|
  {
    if '.' !in filename {
      SplitWithoutSeparator(filename, '.');
      assert filename[|filename| - |filename|..] == filename;
    } else {
      var tail := filename[1..];
      assert filename == [filename[0]] + tail;
      if filename[0] != '.' {
        assert '.' in tail;
      }
      ExtensionTail(filename);
      var e := Extension(tail);
      ExtensionSuffix(tail);
      assert filename[|filename| - |e|..] == tail[|tail| - |e|..];
      if '.' in tail {
        assert filename[|filename| - |e| - 1] == tail[|tail| - |e| - 1];
      } else {
        SplitWithoutSeparator(tail, '.');
      }
    }
  }

  /** The extension holds no dot and ends the name; when the name has a dot the extension
      is what follows the last one, and otherwise it is the whole name. */
  lemma ExtensionSpec(filename: string)
    ensures '.' !in Extension(filename)
    ensures EndsWith(filename, Extension(filename))
    ensures '.' in filename ==>
      |Extension(filename)| < |filename| && filename[|filename| - |Extension(filename)| - 1] == '.'
    ensures '.' !in filename ==> Extension(filename) == filename
  {
    SplitPiecesFree(filename, '.');
    if '.' !in filename {
      SplitWithoutSeparator(filename, '.');
    }
    ExtensionSuffix(filename);
  }

  /** The extension of a name built as `<stem>.<ext>` with a dot-free `ext` is `ext`. */
  lemma ExtensionAfterDot(stem: string, ext: string)
    requires '.' !in ext
    ensures Extension(stem + "." + ext) == ext
  {
    var s := stem + "." + ext;
    assert s[|stem|] == '.';
    ExtensionSpec(s);
    var e := Extension(s);
    assert e == s[|s| - |e|..];
  }

  /** The stored object's name: `<uuid>.<extension>`. */
  function StoredName(uuid: string, filename: string): string {
    uuid + "." + Extension(filename)
  }

  /** Whatever the uuid, the stored name keeps the original file's extension. */
  lemma StoredNameKeepsExtension(uuid: string, filename: string)
    ensures Extension(StoredName(uuid, filename)) == Extension(filename)
    ensures StartsWith(StoredName(uuid, filename), uuid + ".")
  {
    ExtensionSpec(filename);
    ExtensionAfterDot(uuid, Extension(filename));
  }

  /** The upload's content type: PDF exactly for a name ending in ".pdf", CSV otherwise. */
  function ContentType(filename: string): (r: string)
    ensures r == PdfContentType <==> EndsWith(filename, ".pdf")
    ensures r == CsvContentType <==> !EndsWith(filename, ".pdf")
  {
    if EndsWith(filename, ".pdf") then PdfContentType else CsvContentType
  }

  // ---------------------------------------------------------------- listing

  /** A listed object as `{ path, createdAt }`, a missing time read as `now`. */
  function Info(o: StoredObject, now: int): TempFileInfo {
    TempFileInfo(o.name, o.createdAt.GetOr(now))
  }

  /** `filter(file => file.id).map(...)`, in storage order. */
  function Infos(objects: seq<StoredObject>, now: int): seq<TempFileInfo>
    decreases |objects|
  {
    if objects == [] then []
    else (if objects[0].hasId then [Info(objects[0], now)] else []) + Infos(objects[1..], now)
  }

  /** The listed files are exactly the infos of the objects that have an id. */
  lemma {:induction false} InfosMembers(objects: seq<StoredObject>, now: int, x: TempFileInfo)
    ensures x in Infos(objects, now) <==> exists k :: 0 <= k < |objects| && objects[k].hasId && Info(objects[k], now) == x
    decreases |objects|
  {
    if objects != [] {
      InfosMembers(objects[1..], now, x);
      if x in Infos(objects[1..], now) {
        var k :| 0 <= k < |objects[1..]| && objects[1..][k].hasId && Info(objects[1..][k], now) == x;
        assert objects[k + 1] == objects[1..][k];
      }
      if exists k :: 0 <= k < |objects| && objects[k].hasId && Info(objects[k], now) == x {
        var k :| 0 <= k < |objects| && objects[k].hasId && Info(objects[k], now) == x;
        if k > 0 {
          assert objects[1..][k - 1] == objects[k];
        }
      }
    }
  }

  /** Oldest first. */
  predicate OldestFirst(files: seq<TempFileInfo>) {
    forall i, j :: 0 <= i < j < |files| ==> files[i].createdAt <= files[j].createdAt
  }

  /** Places `x` in front of the first file not older than it. */
  function InsertByCreated(x: TempFileInfo, sorted: seq<TempFileInfo>): seq<TempFileInfo>
    decreases |sorted|
  {
    if sorted == [] || x.createdAt <= sorted[0].createdAt then [x] + sorted
    else [sorted[0]] + InsertByCreated(x, sorted[1..])
  }

  /** `sort((a, b) => a.createdAt - b.createdAt)`: a stable sort, oldest first. */
  function SortByCreated(files: seq<TempFileInfo>): seq<TempFileInfo>
    decreases |files|
  {
    if files == [] then [] else InsertByCreated(files[0], SortByCreated(files[1..]))
  }

  /** Inserting adds `x` and keeps every other file, as often as it occurs. */
  lemma {:induction false} InsertByCreatedPerm(x: TempFileInfo, sorted: seq<TempFileInfo>)
    ensures multiset(InsertByCreated(x, sorted)) == multiset(sorted) + multiset{x}
    decreases |sorted|
  {
    if sorted != [] && x.createdAt > sorted[0].createdAt {
      var tail := sorted[1..];
      InsertByCreatedPerm(x, tail);
      assert sorted == [sorted[0]] + tail;
    }
  }

  /** A file no newer than every file of an oldest-first list can go in front of it. */
  lemma ConsOldestFirst(h: TempFileInfo, rest: seq<TempFileInfo>)
    requires OldestFirst(rest)
    requires forall k :: 0 <= k < |rest| ==> h.createdAt <= rest[k].createdAt
    ensures OldestFirst([h] + rest)
  {
    var r := [h] + rest;
    forall i, j | 0 <= i < j < |r| ensures r[i].createdAt <= r[j].createdAt {
      assert r[j] == rest[j - 1];
      if i > 0 {
        assert r[i] == rest[i - 1];
      }
    }
  }

  /** Inserting into an oldest-first list keeps it oldest first. */
  lemma {:induction false} InsertByCreatedOrdered(x: TempFileInfo, sorted: seq<TempFileInfo>)
    requires OldestFirst(sorted)
    ensures OldestFirst(InsertByCreated(x, sorted))
    decreases |sorted|
  {
    if sorted == [] || x.createdAt <= sorted[0].createdAt {
      ConsOldestFirst(x, sorted);
    } else {
      var tail := sorted[1..];
      InsertByCreatedOrdered(x, tail);
      InsertByCreatedPerm(x, tail);
      var inserted := InsertByCreated(x, tail);
      forall k | 0 <= k < |inserted| ensures sorted[0].createdAt <= inserted[k].createdAt {
        assert inserted[k] in multiset(tail) + multiset{x};
        if inserted[k] != x {
          var j :| 0 <= j < |tail| && tail[j] == inserted[k];
          assert sorted[j + 1] == tail[j];
        }
      }
      ConsOldestFirst(sorted[0], inserted);
    }
  }

  lemma InsertByCreatedSpec(x: TempFileInfo, sorted: seq<TempFileInfo>)
    requires OldestFirst(sorted)
    ensures OldestFirst(InsertByCreated(x, sorted))
    ensures multiset(InsertByCreated(x, sorted)) == multiset(sorted) + multiset{x}
  {
    InsertByCreatedOrdered(x, sorted);
    InsertByCreatedPerm(x, sorted);
  }

  /** The sort orders the files oldest first and keeps every file, as often as it occurs. */
  lemma {:induction false} SortByCreatedSpec(files: seq<TempFileInfo>)
    ensures OldestFirst(SortByCreated(files))
    ensures multiset(SortByCreated(files)) == multiset(files)
    decreases |files|
  {
    if files != [] {
      SortByCreatedSpec(files[1..]);
      InsertByCreatedSpec(files[0], SortByCreated(files[1..]));
      assert files == [files[0]] + files[1..];
    }
  }

  /** `getTempFiles` over a given bucket: an error mentioning "not found" reads as an empty
      bucket, any other error is thrown, and otherwise the listed files oldest first. */
  function Listing(objects: seq<StoredObject>, now: int, fault: Option<string>): (r: Result<seq<TempFileInfo>>)
    ensures r.Err? <==> fault.Some? && !Contains(fault.value, NotFound)
    ensures r.Err? ==> r.error == fault.value
    ensures fault.Some? && r.Ok? ==> r.value == []
    ensures fault.None? ==> r.Ok? && OldestFirst(r.value) && multiset(r.value) == multiset(Infos(objects, now))
    ensures fault.None? ==> |r.value| == |Infos(objects, now)|
  {
    if fault.Some? then
      (if Contains(fault.value, NotFound) then Ok([]) else Err(fault.value))
    else
      var sorted := SortByCreated(Infos(objects, now));
      SortByCreatedSpec(Infos(objects, now));
      assert |sorted| == |multiset(sorted)| == |multiset(Infos(objects, now))| == |Infos(objects, now)|;
      Ok(sorted)
  }

  // ---------------------------------------------------------------- removal

  /** `remove([path])`: every object of that name goes. */
  function Without(objects: seq<StoredObject>, path: string): (r: seq<StoredObject>)
    ensures forall o :: o in r <==> o in objects && o.name != path
    ensures |r| <= |objects|
    decreases |objects|
  {
    if objects == [] then []
    else (if objects[0].name == path then [] else [objects[0]]) + Without(objects[1..], path)
  }

  /** Some file of `files` has the path `name`. */
  predicate Targeted(files: seq<TempFileInfo>, name: string) {
    exists k :: 0 <= k < |files| && files[k].path == name
  }

  /** The objects after removing each of `victims` in order, where a removal whose path is
      in `fails` is refused by the storage service and changes nothing. */
  function RemoveEach(objects: seq<StoredObject>, victims: seq<TempFileInfo>, fails: set<string>): seq<StoredObject>
    decreases |victims|
  {
    if victims == [] then objects
    else
      var before := RemoveEach(objects, victims[..|victims| - 1], fails);
      var last := victims[|victims| - 1];
      if last.path in fails then before else Without(before, last.path)
  }

  /** A name is targeted by a list of files exactly when the front targets it or the
      last file has it. */
  lemma TargetedLast(victims: seq<TempFileInfo>, name: string)
    requires victims != []
    ensures Targeted(victims, name) <==>
      Targeted(victims[..|victims| - 1], name) || victims[|victims| - 1].path == name
  {
    var n := |victims| - 1;
    var front := victims[..n];
    if Targeted(front, name) {
      var k :| 0 <= k < |front| && front[k].path == name;
      assert victims[k] == front[k];
    }
    if victims[n].path == name {
      assert 0 <= n < |victims| && victims[n].path == name;
    }
    if Targeted(victims, name) && victims[n].path != name {
      var k :| 0 <= k < |victims| && victims[k].path == name;
      assert k < n;
      assert front[k] == victims[k];
    }
  }

  /** An object survives the removals exactly when no victim has its name or that name's
      removal was refused. */
  lemma {:induction false} RemoveEachSpec(objects: seq<StoredObject>, victims: seq<TempFileInfo>, fails: set<string>, o: StoredObject)
    ensures o in RemoveEach(objects, victims, fails) <==>
      o in objects && (o.name in fails || !Targeted(victims, o.name))
    decreases |victims|
  {
    if victims != [] {
      var front := victims[..|victims| - 1];
      RemoveEachSpec(objects, front, fails, o);
      TargetedLast(victims, o.name);
    }
  }

  /** The eviction step of `cleanupOldFiles` over a listing oldest first: with MaxFiles or
      more files, the oldest `count - MaxFiles + 1` are removed. */
  function Evict(objects: seq<StoredObject>, listed: seq<TempFileInfo>, fails: set<string>): seq<StoredObject> {
    if |listed| >= MaxFiles then RemoveEach(objects, listed[..|listed| - MaxFiles + 1], fails) else objects
  }

  /** `cleanupOldFiles` over a given bucket: the listing's error is thrown; otherwise the
      eviction, whose failed removals are only warned about. */
  function Cleanup(objects: seq<StoredObject>, now: int, listFault: Option<string>, fails: set<string>): (seq<StoredObject>, Outcome) {
    match Listing(objects, now, listFault)
    case Err(e) => (objects, Fail(e))
    case Ok(listed) => (Evict(objects, listed, fails), Pass)
  }

  /** Below MaxFiles listed files nothing is removed. */
  lemma CleanupBelowLimit(objects: seq<StoredObject>, now: int, listFault: Option<string>, fails: set<string>)
    requires listFault.None? && |Infos(objects, now)| < MaxFiles
    ensures Cleanup(objects, now, listFault, fails) == (objects, Pass)
  {
  }

  /** From MaxFiles listed files on, the removed files are the oldest ones: every listed
      file survives exactly when it is not among the `count - MaxFiles + 1` oldest (or its
      removal was refused), and each of those is no newer than any file that is kept. */
  lemma CleanupEvictsOldest(objects: seq<StoredObject>, now: int, fails: set<string>, o: StoredObject)
    requires |Infos(objects, now)| >= MaxFiles
    requires o in objects
    ensures var listed := Listing(objects, now, None).value;
      var victims := listed[..|listed| - MaxFiles + 1];
      && |victims| == |listed| - (MaxFiles - 1)
      && (o in Cleanup(objects, now, None, fails).0 <==> o.name in fails || !Targeted(victims, o.name))
      && (forall i, j :: 0 <= i < |victims| <= j < |listed| ==> victims[i].createdAt <= listed[j].createdAt)
  {
    var listed := Listing(objects, now, None).value;
    var victims := listed[..|listed| - MaxFiles + 1];
    RemoveEachSpec(objects, victims, fails, o);
  }

  // ---------------------------------------------------------------- whole operations

  /** `ensureBucket`: a listing error is thrown; a missing bucket is created, and a
      creation error is thrown. */
  function Ensure(bucket: Bucket, listFault: Option<string>, createFault: Option<string>): (r: (Bucket, Outcome))
    ensures r.0.objects == bucket.objects
    ensures r.1.Pass? <==> listFault.None? && (bucket.created || createFault.None?)
    ensures r.1.Pass? ==> r.0.created
    ensures r.1.Fail? ==> r.0 == bucket
  {
    if listFault.Some? then (bucket, Fail(ListBucketsFailedPrefix + listFault.value))
    else if bucket.created then (bucket, Pass)
    else if createFault.Some? then (bucket, Fail(CreateBucketFailedPrefix + createFault.value))
    else (bucket.(created := true), Pass)
  }

  /** The object an upload of `buffer` under `filename` stores. */
  function Uploaded(buffer: Bytes, filename: string, uuid: string, uploadedAt: int): StoredObject {
    StoredObject(StoredName(uuid, filename), true, Some(uploadedAt), ContentType(filename), buffer)
  }

  /** `saveTempFile` over a given bucket: size check, bucket, upload, then cleanup. A
      cleanup whose listing fails throws, with the file already uploaded. */
  function Save(bucket: Bucket, buffer: Bytes, filename: string, uuid: string, uploadedAt: int, now: int,
                faults: SaveFaults): (Bucket, Result<string>)
  {
    if |buffer| > Validation.MaxFileSize then (bucket, Err(SizeExceededMessage))
    else
      var (ensured, outcome) := Ensure(bucket, faults.listBuckets, faults.createBucket);
      if outcome.Fail? then (ensured, Err(outcome.error))
      else if faults.upload.Some? then (ensured, Err(UploadFailedPrefix + faults.upload.value))
      else
        var uploaded := ensured.objects + [Uploaded(buffer, filename, uuid, uploadedAt)];
        var (cleaned, cleanup) := Cleanup(uploaded, now, faults.list, faults.removeFails);
        (ensured.(objects := cleaned), if cleanup.Fail? then Err(cleanup.error) else Ok(StoredName(uuid, filename)))
  }

  /** `getTempFile` over a given bucket. */
  function Download(objects: seq<StoredObject>, path: string, fault: Option<string>): (r: Result<Bytes>)
    ensures fault.None? ==> (r.Ok? <==> exists o :: o in objects && o.name == path)
    ensures r.Ok? ==> fault.None? && exists o :: o in objects && o.name == path && o.content == r.value
    ensures r.Err? && (fault.None? || Contains(fault.value, NotFound)) ==> r.error == FileNotFoundPrefix + path
    ensures r.Err? && fault.Some? && !Contains(fault.value, NotFound) ==> r.error == DownloadFailedPrefix + fault.value
    decreases |objects|
  {
    if fault.Some? then
      (if Contains(fault.value, NotFound) then Err(FileNotFoundPrefix + path) else Err(DownloadFailedPrefix + fault.value))
    else if objects == [] then Err(FileNotFoundPrefix + path)
    else if objects[0].name == path then Ok(objects[0].content)
    else Download(objects[1..], path, fault)
  }

  /** `saveTempFile` rejects a file over the size limit before touching the bucket. */
  lemma SaveRejectsLargeFile(bucket: Bucket, buffer: Bytes, filename: string, uuid: string, uploadedAt: int, now: int,
                             faults: SaveFaults)
    requires |buffer| > Validation.MaxFileSize
    ensures Save(bucket, buffer, filename, uuid, uploadedAt, now, faults) == (bucket, Err(SizeExceededMessage))
    ensures SizeExceededMessage == "File size exceeds maximum limit of 10MB"
  {
    assert NatToString(10) == "10";
  }

  /** A successful save returns `<uuid>.<extension>` and happens exactly when the file is
      small enough and neither the bucket, the upload nor the listing fails. */
  lemma SaveSucceeds(bucket: Bucket, buffer: Bytes, filename: string, uuid: string, uploadedAt: int, now: int,
                     faults: SaveFaults)
    ensures var r := Save(bucket, buffer, filename, uuid, uploadedAt, now, faults).1;
      && (r.Ok? <==>
            |buffer| <= Validation.MaxFileSize && faults.listBuckets.None? && (bucket.created || faults.createBucket.None?)
            && faults.upload.None? && (faults.list.None? || Contains(faults.list.value, NotFound)))
      && (r.Ok? ==> r.value == StoredName(uuid, filename) && Extension(r.value) == Extension(filename))
  {
    StoredNameKeepsExtension(uuid, filename);
  }

  /** A file saved newer than every listed file and under a fresh name is downloadable
      afterwards with the bytes that were saved: the cleanup never evicts it. */
  lemma SaveThenDownload(bucket: Bucket, buffer: Bytes, filename: string, uuid: string, uploadedAt: int, now: int,
                         faults: SaveFaults)
    requires forall o :: o in bucket.objects ==> o.name != StoredName(uuid, filename)
    requires forall o :: o in bucket.objects && o.hasId ==> Info(o, now).createdAt < uploadedAt
    requires Save(bucket, buffer, filename, uuid, uploadedAt, now, faults).1.Ok?
    ensures var (after, r) := Save(bucket, buffer, filename, uuid, uploadedAt, now, faults);
      Download(after.objects, r.value, None) == Ok(buffer)
  {
    var path := StoredName(uuid, filename);
    var newest := Uploaded(buffer, filename, uuid, uploadedAt);
    var uploaded := bucket.objects + [newest];
    var after := Save(bucket, buffer, filename, uuid, uploadedAt, now, faults).0.objects;
    NewestSurvives(bucket.objects, newest, now, faults.list, faults.removeFails);
    assert newest in after;
    DownloadFindsOnly(after, newest);
  }

  /** Download finds the content of the only object of a name. */
  lemma {:induction false} DownloadFindsOnly(objects: seq<StoredObject>, o: StoredObject)
    requires o in objects
    requires forall p :: p in objects && p.name == o.name ==> p == o
    ensures Download(objects, o.name, None) == Ok(o.content)
    decreases |objects|
  {
    if objects[0] != o {
      DownloadFindsOnly(objects[1..], o);
    }
  }

  /** Appending an object appends its info, when it has an id. */
  lemma {:induction false} InfosAppend(objects: seq<StoredObject>, o: StoredObject, now: int)
    ensures Infos(objects + [o], now) == Infos(objects, now) + (if o.hasId then [Info(o, now)] else [])
    decreases |objects|
  {
    if objects != [] {
      InfosAppend(objects[1..], o, now);
      assert (objects + [o])[1..] == objects[1..] + [o];
    }
  }

  /** A value at two positions of a sequence occurs at least twice in it. */
  lemma TwiceCounted<T>(s: seq<T>, i: nat, j: nat)
    requires i < j < |s| && s[i] == s[j]
    ensures multiset(s)[s[i]] >= 2
  {
    assert s == s[..j] + [s[j]] + s[j + 1..];
    assert s[i] in s[..j];
  }

  /** In a sequence oldest first where `x` occurs once and every other file is strictly
      older, `x` is the last file. */
  lemma NewestIsLast(listed: seq<TempFileInfo>, x: TempFileInfo)
    requires OldestFirst(listed)
    requires multiset(listed)[x] == 1
    requires forall y :: y in listed && y != x ==> y.createdAt < x.createdAt
    ensures forall k :: 0 <= k < |listed| - 1 ==> listed[k] != x
  {
    var n := |listed|;
    var i :| 0 <= i < n && listed[i] == x;
    assert x.createdAt <= listed[n - 1].createdAt;
    assert listed[n - 1] == x;
    forall k | 0 <= k < n - 1 ensures listed[k] != x {
      if listed[k] == x {
        TwiceCounted(listed, k, n - 1);
      }
    }
  }

  /** Appending a strictly newest object of a fresh name adds one listed file that is
      newer than, and named differently from, every other. */
  lemma NewestInfo(objects: seq<StoredObject>, newest: StoredObject, now: int)
    requires newest.hasId
    requires forall o :: o in objects ==> o.name != newest.name
    requires forall o :: o in objects && o.hasId ==> Info(o, now).createdAt < Info(newest, now).createdAt
    ensures var x := Info(newest, now);
      var infos := Infos(objects + [newest], now);
      && multiset(infos)[x] == 1
      && forall y :: y in infos && y != x ==> y.path != x.path && y.createdAt < x.createdAt
  {
    var x := Info(newest, now);
    var before := Infos(objects, now);
    InfosAppend(objects, newest, now);
    forall y | y in before ensures y.path != x.path && y.createdAt < x.createdAt {
      InfosMembers(objects, now, y);
    }
    assert x !in before;
    assert multiset(before + [x])[x] == multiset(before)[x] + 1;
  }

  /** In the listing of a bucket to which a strictly newest object of a fresh name was
      appended, only the last file has that object's name. */
  lemma NewestListedLast(objects: seq<StoredObject>, newest: StoredObject, now: int)
    requires newest.hasId
    requires forall o :: o in objects ==> o.name != newest.name
    requires forall o :: o in objects && o.hasId ==> Info(o, now).createdAt < Info(newest, now).createdAt
    ensures var listed := Listing(objects + [newest], now, None).value;
      forall k :: 0 <= k < |listed| - 1 ==> listed[k].path != newest.name
  {
    var x := Info(newest, now);
    var infos := Infos(objects + [newest], now);
    var listed := Listing(objects + [newest], now, None).value;
    NewestInfo(objects, newest, now);
    forall y | y in listed && y != x ensures y.path != x.path && y.createdAt < x.createdAt {
      assert y in multiset(infos);
    }
    NewestIsLast(listed, x);
  }

  /** A strictly newest object with a fresh name survives a cleanup. */
  lemma NewestSurvives(objects: seq<StoredObject>, newest: StoredObject, now: int, listFault: Option<string>,
                       fails: set<string>)
    requires newest.hasId
    requires forall o :: o in objects ==> o.name != newest.name
    requires forall o :: o in objects && o.hasId ==> Info(o, now).createdAt < Info(newest, now).createdAt
    ensures newest in Cleanup(objects + [newest], now, listFault, fails).0
    ensures forall o :: o in Cleanup(objects + [newest], now, listFault, fails).0 ==> o in objects + [newest]
  {
    var all := objects + [newest];
    match Listing(all, now, listFault)
    case Err(_) =>
    case Ok(listed) =>
      if |listed| >= MaxFiles {
        var victims := listed[..|listed| - MaxFiles + 1];
        RemoveEachSpec(all, victims, fails, newest);
        forall o | o in RemoveEach(all, victims, fails) ensures o in all {
          RemoveEachSpec(all, victims, fails, o);
        }
        NewestListedLast(objects, newest, now);
        assert !Targeted(victims, newest.name);
      }
  }

  /** `cleanupAllTempFiles` over a given bucket: every listed file is removed in one call;
      errors mentioning "not found" are swallowed, others thrown. */
  function CleanupAll(objects: seq<StoredObject>, now: int, listFault: Option<string>, removeFault: Option<string>): (seq<StoredObject>, Outcome) {
    match Listing(objects, now, listFault)
    case Err(e) => (objects, if Contains(e, NotFound) then Pass else Fail(e))
    case Ok(listed) =>
      if |listed| == 0 then (objects, Pass)
      else if removeFault.Some? then (objects, if Contains(removeFault.value, NotFound) then Pass else Fail(removeFault.value))
      else (RemoveEach(objects, listed, {}), Pass)
  }

  /** A bucket none of whose objects has an id lists nothing. */
  lemma {:induction false} NoIdListsNothing(objects: seq<StoredObject>, now: int)
    requires forall o :: o in objects ==> !o.hasId
    ensures Infos(objects, now) == []
    decreases |objects|
  {
    if objects != [] {
      NoIdListsNothing(objects[1..], now);
    }
  }

  /** After a successful `cleanupAllTempFiles` nothing is listed, no object was added, and
      it fails exactly on a listing or removal error that does not mention "not found". */
  lemma CleanupAllEmptiesListing(objects: seq<StoredObject>, now: int, listFault: Option<string>, removeFault: Option<string>)
    ensures var (after, r) := CleanupAll(objects, now, listFault, removeFault);
      && (r.Fail? <==> (listFault.Some? && !Contains(listFault.value, NotFound))
                       || (listFault.None? && Infos(objects, now) != [] && removeFault.Some? && !Contains(removeFault.value, NotFound)))
      && (forall o :: o in after ==> o in objects)
      && (listFault.None? && removeFault.None? ==> Infos(after, now) == [])
  {
    var (after, r) := CleanupAll(objects, now, listFault, removeFault);
    if listFault.None? && removeFault.None? {
      var listed := Listing(objects, now, None).value;
      if |listed| > 0 {
        forall o | o in objects && o.hasId ensures o !in after {
          var k :| 0 <= k < |objects| && objects[k] == o;
          InfosMembers(objects, now, Info(o, now));
          assert Info(o, now) in multiset(listed);
          var j :| 0 <= j < |listed| && listed[j] == Info(o, now);
          assert Targeted(listed, o.name);
          RemoveEachSpec(objects, listed, {}, o);
        }
        forall o | o in after ensures o in objects && !o.hasId {
          RemoveEachSpec(objects, listed, {}, o);
        }
        NoIdListsNothing(after, now);
      }
    }
  }

  /** Removing a name no object has changes nothing. */
  lemma {:induction false} WithoutAbsent(objects: seq<StoredObject>, path: string)
    requires forall o :: o in objects ==> o.name != path
    ensures Without(objects, path) == objects
    decreases |objects|
  {
    if objects != [] {
      assert objects[0] in objects;
      var tail := objects[1..];
      assert forall o :: o in tail ==> o in objects;
      WithoutAbsent(tail, path);
      assert objects == [objects[0]] + tail;
    }
  }

  /** Removing a name no object has changes nothing; after removing a name, a download of
      it finds nothing. */
  lemma WithoutMissing(objects: seq<StoredObject>, path: string)
    ensures (forall o :: o in objects ==> o.name != path) ==> Without(objects, path) == objects
    ensures Download(Without(objects, path), path, None) == Err(FileNotFoundPrefix + path)
  {
    if forall o :: o in objects ==> o.name != path {
      WithoutAbsent(objects, path);
    }
  }

  // ---------------------------------------------------------------- the bucket

  /** The temporary-uploads bucket as the storage service holds it. */
  class TempBucket {
    var created: bool
    var objects: seq<StoredObject>

    constructor()
      ensures !created && objects == []
    {
      created := false;
      objects := [];
    }

    /** `ensureBucket`. */
    method EnsureBucket(listFault: Option<string>, createFault: Option<string>) returns (r: Outcome)
      modifies this
      ensures (Bucket(created, objects), r) == Ensure(Bucket(old(created), old(objects)), listFault, createFault)
    {
      if listFault.Some? {
        return Fail(ListBucketsFailedPrefix + listFault.value);
      }
      if !created {
        if createFault.Some? {
          return Fail(CreateBucketFailedPrefix + createFault.value);
        }
        created := true;
      }
      return Pass;
    }

    /** `cleanupOldFiles`: removes the oldest listed files one at a time, going on past a
        removal the storage service refuses. */
    method CleanupOldFiles(now: int, listFault: Option<string>, fails: set<string>) returns (r: Outcome)
      modifies this
      ensures created == old(created)
      ensures (objects, r) == Cleanup(old(objects), now, listFault, fails)
    {
      var listing := Listing(objects, now, listFault);
      if listing.Err? {
        return Fail(listing.error);
      }
      var files := listing.value;
      if |files| >= MaxFiles {
        var victims := files[..|files| - MaxFiles + 1];
        var i := 0;
        while i < |victims|
          invariant 0 <= i <= |victims|
          invariant objects == RemoveEach(old(objects), victims[..i], fails)
          invariant created == old(created)
        {
          var path := victims[i].path;
          if path !in fails {
            objects := Without(objects, path);
          }
          assert victims[..i + 1][..i] == victims[..i];
          i := i + 1;
        }
        assert victims[..|victims|] == victims;
      }
      return Pass;
    }

    /** `saveTempFile`. */
    method SaveTempFile(buffer: Bytes, originalFilename: string, uuid: string, uploadedAt: int, now: int,
                        faults: SaveFaults) returns (r: Result<string>)
      modifies this
      ensures (Bucket(created, objects), r) ==
        Save(Bucket(old(created), old(objects)), buffer, originalFilename, uuid, uploadedAt, now, faults)
    {
      if |buffer| > Validation.MaxFileSize {
        return Err(SizeExceededMessage);
      }
      var ensured := EnsureBucket(faults.listBuckets, faults.createBucket);
      if ensured.Fail? {
        return Err(ensured.error);
      }
      var extension := Extension(originalFilename);
      var filePath := uuid + "." + extension;
      if faults.upload.Some? {
        return Err(UploadFailedPrefix + faults.upload.value);
      }
      objects := objects + [StoredObject(filePath, true, Some(uploadedAt), ContentType(originalFilename), buffer)];
      var cleanup := CleanupOldFiles(now, faults.list, faults.removeFails);
      if cleanup.Fail? {
        return Err(cleanup.error);
      }
      return Ok(filePath);
    }

    /** `getTempFile`. */
    function GetTempFile(filePath: string, fault: Option<string>): (r: Result<Bytes>)
      reads this
      ensures fault.None? ==> (r.Ok? <==> exists o :: o in objects && o.name == filePath)
      ensures r.Ok? ==> exists o :: o in objects && o.name == filePath && o.content == r.value
      ensures r.Err? && fault.Some? && !Contains(fault.value, NotFound) ==> r.error == DownloadFailedPrefix + fault.value
      ensures r.Err? && (fault.None? || Contains(fault.value, NotFound)) ==> r.error == FileNotFoundPrefix + filePath
    {
      Download(objects, filePath, fault)
    }

    /** `deleteTempFile`: a "not found" error is a silent success. */
    method DeleteTempFile(filePath: string, fault: Option<string>) returns (r: Outcome)
      modifies this
      ensures created == old(created)
      ensures r.Fail? <==> fault.Some? && !Contains(fault.value, NotFound)
      ensures r.Fail? ==> r.error == DeleteFailedPrefix + fault.value
      ensures objects == if fault.None? then Without(old(objects), filePath) else old(objects)
    {
      if fault.Some? {
        if !Contains(fault.value, NotFound) {
          return Fail(DeleteFailedPrefix + fault.value);
        }
        return Pass;
      }
      objects := Without(objects, filePath);
      return Pass;
    }

    /** `cleanupAllTempFiles`. */
    method CleanupAllTempFiles(now: int, listFault: Option<string>, removeFault: Option<string>) returns (r: Outcome)
      modifies this
      ensures created == old(created)
      ensures (objects, r) == CleanupAll(old(objects), now, listFault, removeFault)
    {
      var listing := Listing(objects, now, listFault);
      if listing.Err? {
        if Contains(listing.error, NotFound) {
          return Pass;
        }
        return Fail(listing.error);
      }
      var files := listing.value;
      if |files| > 0 {
        if removeFault.Some? {
          if Contains(removeFault.value, NotFound) {
            return Pass;
          }
          return Fail(removeFault.value);
        }
        objects := RemoveEach(objects, files, {});
      }
      return Pass;
    }
  }
}
