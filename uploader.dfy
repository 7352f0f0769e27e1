/**
 * The upload list of `components/FileUploader.jsx`: an ordered list of per-file
 * records keyed by `id`, each moving through
 * `uploading -> uploaded | error` and later `converting -> completed | error`,
 * and the `uploading` flag that is raised for the whole of one upload batch.
 *
 * Every update the component makes is a map or a filter over the list by id;
 * the record-level updates are the constructors of `Change`, applied by `Apply`.
 * The network round trips become inputs: the response to the upload request and
 * the response to the conversion request are passed in, and the identifier the
 * component builds from the clock and a random number is passed in as a fresh id.
 */
module Uploader {
  import opened Wrappers
  import opened Sequences

  /** The `maxFiles` property's default. */
  const DefaultMaxFiles: nat := 5

  datatype Status = Uploading | Uploaded | Converting | Completed | Error

  /** The browser file a record was made from: its name, size and MIME type. */
  datatype LocalFile = LocalFile(name: string, size: nat, mimeType: string)

  /** One entry of the `files` list (`conversionOptions` is always empty and is not modelled). */
  datatype FileRecord = FileRecord(
    id: string,
    file: LocalFile,
    status: Status,
    progress: nat,
    uploadedFileId: Option<string>,
    supportedOutputs: seq<string>,
    selectedOutput: string,
    downloadUrl: Option<string>,
    outputInfo: Option<string>,
    error: Option<string>)

  /** What `/api/upload` answered, or the message of whatever the request threw. */
  datatype UploadResponse =
    | UploadSuccess(fileId: Option<string>, supportedOutputs: seq<string>)
    | UploadFailure(message: string)

  /** What `/api/convert` answered, or the message of whatever the request threw. */
  datatype ConvertResponse =
    | ConvertSuccess(downloadUrl: Option<string>, outputInfo: Option<string>)
    | ConvertFailure(message: string)

  /** The body of the conversion request: the server's file id and the target format. */
  datatype ConvertRequest = ConvertRequest(fileId: string, targetFormat: string)

  /** The record-level updates the component performs. */
  datatype Change =
    | UploadSucceeded(fileId: Option<string>, outputs: seq<string>)
    | Failed(message: string)
    | OutputSelected(format: string)
    | ConversionStarted
    | ConversionSucceeded(downloadUrl: Option<string>, outputInfo: Option<string>)

  /** The record added as soon as a file is picked. */
  function NewRecord(id: string, file: LocalFile): (r: FileRecord)
    ensures WellFormed(r)
  {
    FileRecord(id, file, Uploading, 0, None, [], "", None, None, None)
  }

  /** The object spread `{ ...f, … }` of each update. */
  function Apply(r: FileRecord, c: Change): FileRecord
  {
    match c
    case UploadSucceeded(fileId, outputs) =>
      r.(status := Uploaded, progress := 100, uploadedFileId := fileId, supportedOutputs := outputs,
         selectedOutput := if |outputs| > 0 then outputs[0] else "")
    case Failed(message) => r.(status := Error, error := Some(message))
    case OutputSelected(format) => r.(selectedOutput := format)
    case ConversionStarted => r.(status := Converting, progress := 0)
    case ConversionSucceeded(url, info) =>
      r.(status := Completed, progress := 100, downloadUrl := url, outputInfo := info)
  }

  function UploadChange(response: UploadResponse): Change
  {
    match response
    case UploadSuccess(fileId, outputs) => UploadSucceeded(fileId, outputs)
    case UploadFailure(message) => Failed(message)
  }

  function ConvertChange(response: ConvertResponse): Change
  {
    match response
    case ConvertSuccess(url, info) => ConversionSucceeded(url, info)
    case ConvertFailure(message) => Failed(message)
  }

  /** `!!value` for the server's file id: present and not the empty string. */
  predicate Truthy(value: Option<string>)
  {
    value.Some? && value.value != ""
  }

  // ---------------------------------------------------------------------------
  // The list and its invariant
  // ---------------------------------------------------------------------------

  ghost predicate HasId(files: seq<FileRecord>, id: string)
  {
    exists i :: 0 <= i < |files| && files[i].id == id
  }

  ghost predicate DistinctIds(files: seq<FileRecord>)
  {
    forall i, j :: 0 <= i < j < |files| ==> files[i].id != files[j].id
  }

  /**
   * What every update keeps true of a record: progress is 0 or 100, it is 0
   * while uploading or converting and 100 once uploaded or completed, and a
   * record in error carries a message.
   */
  ghost predicate WellFormed(r: FileRecord)
  {
    && (r.progress == 0 || r.progress == 100)
    && (r.status == Uploading || r.status == Converting ==> r.progress == 0)
    && (r.status == Uploaded || r.status == Completed ==> r.progress == 100)
    && (r.status == Error ==> r.error.Some?)
  }

  ghost predicate ValidList(files: seq<FileRecord>)
  {
    DistinctIds(files) && forall i :: 0 <= i < |files| ==> WellFormed(files[i])
  }

  lemma ApplyKeepsWellFormed(r: FileRecord, c: Change)
    requires WellFormed(r)
    ensures WellFormed(Apply(r, c)) && Apply(r, c).id == r.id && Apply(r, c).file == r.file
  {
  }

  /** `files.map(f => f.id === id ? change(f) : f)`: only records with the id change, the order is kept. */
  function UpdateById(files: seq<FileRecord>, id: string, c: Change): (r: seq<FileRecord>)
    ensures |r| == |files|
    ensures forall i :: 0 <= i < |files| && files[i].id != id ==> r[i] == files[i]
    ensures forall i :: 0 <= i < |files| && files[i].id == id ==> r[i] == Apply(files[i], c)
    ensures forall i :: 0 <= i < |files| ==> r[i].id == files[i].id
  {
    seq(|files|, i requires 0 <= i < |files| => if files[i].id == id then Apply(files[i], c) else files[i])
  }

  /** With distinct ids, updating by the id of entry `k` replaces entry `k` and nothing else. */
  lemma UpdateAtUniqueIndex(files: seq<FileRecord>, k: nat, c: Change)
    requires DistinctIds(files) && k < |files|
    ensures UpdateById(files, files[k].id, c) == files[k := Apply(files[k], c)]
  {
  }

  /** An id that no record has leaves the list as it was. */
  lemma UpdateAbsent(files: seq<FileRecord>, id: string, c: Change)
    requires !HasId(files, id)
    ensures UpdateById(files, id, c) == files
  {
  }

  /** Updating keeps the invariant of the list. */
  lemma UpdateKeepsValid(files: seq<FileRecord>, id: string, c: Change)
    requires ValidList(files)
    ensures ValidList(UpdateById(files, id, c))
  {
    var r := UpdateById(files, id, c);
    forall i | 0 <= i < |r| ensures WellFormed(r[i]) {
      ApplyKeepsWellFormed(files[i], c);
    }
  }

  /** `files.filter(f => f.id !== id)`. */
  function RemoveById(files: seq<FileRecord>, id: string): seq<FileRecord>
  {
    if files == [] then []
    else if files[0].id != id then [files[0]] + RemoveById(files[1..], id)
    else RemoveById(files[1..], id)
  }

  /** The filter keeps exactly the records without the id, in their original order. */
  lemma {:induction false} RemoveSelects(files: seq<FileRecord>, id: string)
    ensures forall x :: x in RemoveById(files, id) <==> x in files && x.id != id
    ensures IsSubsequence(RemoveById(files, id), files)
  {
    if files != [] {
      var rest := RemoveById(files[1..], id);
      RemoveSelects(files[1..], id);
      assert forall x :: x in files <==> x == files[0] || x in files[1..];
      if files[0].id == id {
        SubsequenceOfTail(rest, files);
      } else {
        assert ([files[0]] + rest)[1..] == rest;
      }
    }
  }

  /** Removing an id that no record has leaves the list as it was. */
  lemma {:induction false} RemoveAbsent(files: seq<FileRecord>, id: string)
    requires !HasId(files, id)
    ensures RemoveById(files, id) == files
  {
    if files != [] {
      assert !HasId(files[1..], id) by {
        forall i | 0 <= i < |files[1..]| ensures files[1..][i].id != id {
          assert files[1..][i] == files[i + 1];
        }
      }
      RemoveAbsent(files[1..], id);
    }
  }

  /** With distinct ids, removing the id of entry `k` cuts out entry `k` and keeps the rest in order. */
  lemma {:induction false} RemoveAtUniqueIndex(files: seq<FileRecord>, k: nat)
    requires DistinctIds(files) && k < |files|
    ensures RemoveById(files, files[k].id) == files[..k] + files[k + 1..]
  {
    OthersLackId(files, k);
    assert files == files[..k] + [files[k]] + files[k + 1..];
    RemoveBetween(files[..k], files[k], files[k + 1..]);
  }

  /** Removing the id of a record that only it has cuts out that record. */
  lemma RemoveBetween(pre: seq<FileRecord>, x: FileRecord, post: seq<FileRecord>)
    requires !HasId(pre, x.id) && !HasId(post, x.id)
    ensures RemoveById(pre + [x] + post, x.id) == pre + post
  {
    RemoveAppend(pre + [x], post, x.id);
    RemoveAppend(pre, [x], x.id);
    RemoveAbsent(pre, x.id);
    RemoveAbsent(post, x.id);
    RemoveOnly(x);
  }

  lemma RemoveOnly(x: FileRecord)
    ensures RemoveById([x], x.id) == []
  {
  }

  /** With distinct ids, no record before or after entry `k` has its id. */
  lemma OthersLackId(files: seq<FileRecord>, k: nat)
    requires DistinctIds(files) && k < |files|
    ensures !HasId(files[..k], files[k].id) && !HasId(files[k + 1..], files[k].id)
  {
    var pre, post := files[..k], files[k + 1..];
    forall i | 0 <= i < |pre| ensures pre[i].id != files[k].id {
      assert pre[i] == files[i];
    }
    forall i | 0 <= i < |post| ensures post[i].id != files[k].id {
      assert post[i] == files[k + 1 + i];
    }
  }

  /** Filtering distributes over concatenation. */
  lemma {:induction false} RemoveAppend(a: seq<FileRecord>, b: seq<FileRecord>, id: string)
    ensures RemoveById(a + b, id) == RemoveById(a, id) + RemoveById(b, id)
  {
    if a == [] {
      assert a + b == b;
    } else {
      assert (a + b)[1..] == a[1..] + b;
      RemoveAppend(a[1..], b, id);
    }
  }

  lemma DistinctIdsTail(files: seq<FileRecord>)
    requires DistinctIds(files) && files != []
    ensures DistinctIds(files[1..])
  {
    forall i, j | 0 <= i < j < |files[1..]| ensures files[1..][i].id != files[1..][j].id {
      assert files[1..][i] == files[i + 1] && files[1..][j] == files[j + 1];
    }
  }

  /** Removing keeps the invariant of the list. */
  lemma RemoveKeepsValid(files: seq<FileRecord>, id: string)
    requires ValidList(files)
    ensures ValidList(RemoveById(files, id))
  {
    var r := RemoveById(files, id);
    RemoveSelects(files, id);
    assert Distinct(files) by {
      forall i, j | 0 <= i < j < |files| ensures files[i] != files[j] {
        assert files[i].id != files[j].id;
      }
    }
    forall i | 0 <= i < |r| ensures WellFormed(r[i]) {
      assert r[i] in files;
    }
    SubsequenceKeepsDistinctIds(r, files);
  }

  lemma {:induction false} SubsequenceKeepsDistinctIds(a: seq<FileRecord>, b: seq<FileRecord>)
    requires IsSubsequence(a, b) && DistinctIds(b)
    ensures DistinctIds(a)
    decreases |b|
  {
    if a != [] {
      DistinctIdsTail(b);
      if a[0] == b[0] && IsSubsequence(a[1..], b[1..]) {
        SubsequenceKeepsDistinctIds(a[1..], b[1..]);
        forall j | 0 < j < |a| ensures a[0].id != a[j].id {
          assert a[j] == a[1..][j - 1];
          SubsequenceMembers(a[1..], b[1..], a[j]);
          var m :| 0 <= m < |b[1..]| && b[1..][m] == a[j];
          assert b[m + 1] == a[j];
        }
        forall i, j | 0 <= i < j < |a| ensures a[i].id != a[j].id {
          if i > 0 {
            assert a[i] == a[1..][i - 1] && a[j] == a[1..][j - 1];
          }
        }
      } else {
        SubsequenceKeepsDistinctIds(a, b[1..]);
      }
    }
  }

  /** `files.find(f => f.id === id)`. */
  function FindById(files: seq<FileRecord>, id: string): (r: Option<FileRecord>)
    ensures r.Some? ==> r.value in files && r.value.id == id
    ensures r.None? <==> !HasId(files, id)
  {
    if files == [] then None
    else if files[0].id == id then Some(files[0])
    else
      var r := FindById(files[1..], id);
      assert HasId(files, id) ==> HasId(files[1..], id) by {
        if HasId(files, id) {
          var i :| 0 <= i < |files| && files[i].id == id;
          assert files[1..][i - 1] == files[i];
        }
      }
      assert HasId(files[1..], id) ==> HasId(files, id) by {
        if HasId(files[1..], id) {
          var i :| 0 <= i < |files[1..]| && files[1..][i].id == id;
          assert files[i + 1] == files[1..][i];
        }
      }
      r
  }

  /** With distinct ids, the lookup finds the one record with that id. */
  lemma FindAtUniqueIndex(files: seq<FileRecord>, k: nat)
    requires DistinctIds(files) && k < |files|
    ensures FindById(files, files[k].id) == Some(files[k])
  {
  }

  /**
   * The guard of `startConversion`: the request it sends, or `None` when the
   * record is missing, has no server file id, or has no selected output.
   */
  function ConversionRequest(files: seq<FileRecord>, id: string): (req: Option<ConvertRequest>)
    ensures req.Some? ==> exists k :: 0 <= k < |files| && files[k].id == id
                                      && files[k].uploadedFileId == Some(req.value.fileId)
                                      && files[k].selectedOutput == req.value.targetFormat
    ensures req.Some? ==> req.value.fileId != "" && req.value.targetFormat != ""
    ensures !HasId(files, id) ==> req.None?
  {
    var found := FindById(files, id);
    if found.Some? && Truthy(found.value.uploadedFileId) && found.value.selectedOutput != "" then
      Some(ConvertRequest(found.value.uploadedFileId.value, found.value.selectedOutput))
    else
      None
  }

  /** With distinct ids, a conversion starts exactly for an uploaded record with an output chosen. */
  lemma ConversionRequestAt(files: seq<FileRecord>, k: nat)
    requires DistinctIds(files) && k < |files|
    ensures ConversionRequest(files, files[k].id).Some?
            <==> Truthy(files[k].uploadedFileId) && files[k].selectedOutput != ""
    ensures ConversionRequest(files, files[k].id).Some? ==>
            ConversionRequest(files, files[k].id).value
            == ConvertRequest(files[k].uploadedFileId.value, files[k].selectedOutput)
  {
    FindAtUniqueIndex(files, k);
  }

  /** The records one upload batch leaves behind, one per file in input order. */
  function UploadBatch(ids: seq<string>, fileList: seq<LocalFile>, responses: seq<UploadResponse>, n: nat)
    : (batch: seq<FileRecord>)
    requires n <= |ids| && n <= |fileList| && n <= |responses|
    ensures |batch| == n
    ensures forall k :: 0 <= k < n ==> batch[k].id == ids[k] && batch[k].file == fileList[k]
    ensures forall k :: 0 <= k < n && responses[k].UploadSuccess? ==>
              && batch[k].status == Uploaded && batch[k].progress == 100
              && batch[k].uploadedFileId == responses[k].fileId
              && batch[k].supportedOutputs == responses[k].supportedOutputs
              && batch[k].selectedOutput == (if responses[k].supportedOutputs == [] then ""
                                             else responses[k].supportedOutputs[0])
    ensures forall k :: 0 <= k < n && responses[k].UploadFailure? ==>
              && batch[k].status == Error && batch[k].progress == 0
              && batch[k].error == Some(responses[k].message)
              && batch[k].uploadedFileId.None? && batch[k].selectedOutput == ""
  {
    seq(n, k requires 0 <= k < n => Apply(NewRecord(ids[k], fileList[k]), UploadChange(responses[k])))
  }

  /** Updating the last entry by an id no earlier entry has changes only that entry. */
  lemma UpdateLastOnly(prefix: seq<FileRecord>, x: FileRecord, c: Change)
    requires !HasId(prefix, x.id)
    ensures UpdateById(prefix + [x], x.id, c) == prefix + [Apply(x, c)]
  {
    var r := UpdateById(prefix + [x], x.id, c);
    forall i | 0 <= i < |prefix| ensures r[i] == prefix[i] {
      assert (prefix + [x])[i] == prefix[i];
    }
  }

  /** The id of the next file is not yet in the list during the batch. */
  lemma BatchIdIsFresh(start: seq<FileRecord>, ids: seq<string>, fileList: seq<LocalFile>,
                       responses: seq<UploadResponse>, i: nat)
    requires i < |ids| && |ids| == |fileList| == |responses|
    requires Distinct(ids) && forall k :: 0 <= k < |ids| ==> !HasId(start, ids[k])
    ensures !HasId(start + UploadBatch(ids, fileList, responses, i), ids[i])
  {
    var files := start + UploadBatch(ids, fileList, responses, i);
    forall j | 0 <= j < |files| ensures files[j].id != ids[i] {
      if j < |start| {
        assert files[j] == start[j];
      } else {
        assert files[j].id == ids[j - |start|];
      }
    }
  }

  /** One more file settled extends the batch by its record. */
  lemma UploadBatchStep(ids: seq<string>, fileList: seq<LocalFile>, responses: seq<UploadResponse>, i: nat)
    requires i < |ids| && i < |fileList| && i < |responses|
    ensures UploadBatch(ids, fileList, responses, i + 1)
         == UploadBatch(ids, fileList, responses, i) + [Apply(NewRecord(ids[i], fileList[i]), UploadChange(responses[i]))]
  {
  }

  // ---------------------------------------------------------------------------
  // The component's state
  // ---------------------------------------------------------------------------

  class FileUploader {
    var files: seq<FileRecord>
    var uploading: bool
    const maxFiles: nat

    ghost predicate Valid()
      reads this
    {
      ValidList(files)
    }

    constructor (maxFiles: nat := DefaultMaxFiles)
      ensures Valid() && files == [] && !uploading && this.maxFiles == maxFiles
    {
      this.maxFiles := maxFiles;
      files := [];
      uploading := false;
    }

    /** `setFiles(prev => [...prev, fileObj])` with a fresh id. */
    method AddRecord(id: string, file: LocalFile)
      requires Valid() && !HasId(files, id)
      modifies this
      ensures Valid()
      ensures files == old(files) + [NewRecord(id, file)]
      ensures uploading == old(uploading)
    {
      files := files + [NewRecord(id, file)];
    }

    /** The upload request finished: success or failure lands on the record with the id. */
    method UploadSettled(id: string, response: UploadResponse)
      requires Valid()
      modifies this
      ensures Valid()
      ensures files == UpdateById(old(files), id, UploadChange(response))
      ensures uploading == old(uploading)
    {
      UpdateKeepsValid(files, id, UploadChange(response));
      files := UpdateById(files, id, UploadChange(response));
    }

    /**
     * `handleFileUpload`: the first `maxFiles` files are added one after the
     * other, each settled by its response before the next is added; the flag
     * is up for the whole batch and down afterwards.
     */
    method HandleFileUpload(fileList: seq<LocalFile>, ids: seq<string>, responses: seq<UploadResponse>)
      requires Valid()
      requires |ids| == |fileList| && |responses| == |fileList|
      requires Distinct(ids) && forall k :: 0 <= k < |ids| ==> !HasId(files, ids[k])
      modifies this
      ensures Valid() && !uploading
      ensures files == old(files) + UploadBatch(ids, fileList, responses, Min(|fileList|, maxFiles))
    {
      var n := Min(|fileList|, maxFiles);
      uploading := true;
      var i := 0;
      while i < n
        invariant 0 <= i <= n
        invariant Valid() && uploading
        invariant files == old(files) + UploadBatch(ids, fileList, responses, i)
      {
        ghost var before := files;
        BatchIdIsFresh(old(files), ids, fileList, responses, i);
        AddRecord(ids[i], fileList[i]);
        UpdateLastOnly(before, NewRecord(ids[i], fileList[i]), UploadChange(responses[i]));
        UploadSettled(ids[i], responses[i]);
        UploadBatchStep(ids, fileList, responses, i);
        i := i + 1;
      }
      uploading := false;
    }

    /** `removeFile`. */
    method RemoveFile(id: string)
      requires Valid()
      modifies this
      ensures Valid()
      ensures files == RemoveById(old(files), id)
      ensures uploading == old(uploading)
    {
      RemoveKeepsValid(files, id);
      files := RemoveById(files, id);
    }

    /** `updateOutputFormat`: neither the supported outputs nor the status are consulted. */
    method UpdateOutputFormat(id: string, format: string)
      requires Valid()
      modifies this
      ensures Valid()
      ensures files == UpdateById(old(files), id, OutputSelected(format))
      ensures uploading == old(uploading)
    {
      UpdateKeepsValid(files, id, OutputSelected(format));
      files := UpdateById(files, id, OutputSelected(format));
    }

    /** The first half of `startConversion`: the guard and the switch to `converting`. */
    method BeginConversion(id: string) returns (request: Option<ConvertRequest>)
      requires Valid()
      modifies this
      ensures Valid()
      ensures request == ConversionRequest(old(files), id)
      ensures files == if request.Some? then UpdateById(old(files), id, ConversionStarted) else old(files)
      ensures uploading == old(uploading)
    {
      request := ConversionRequest(files, id);
      if request.Some? {
        UpdateKeepsValid(files, id, ConversionStarted);
        files := UpdateById(files, id, ConversionStarted);
      }
    }

    /** The conversion request finished: success or failure lands on the record with the id. */
    method ConversionSettled(id: string, response: ConvertResponse)
      requires Valid()
      modifies this
      ensures Valid()
      ensures files == UpdateById(old(files), id, ConvertChange(response))
      ensures uploading == old(uploading)
    {
      UpdateKeepsValid(files, id, ConvertChange(response));
      files := UpdateById(files, id, ConvertChange(response));
    }

    /** `startConversion` with the server's answer: a no-op when the guard fails. */
    method StartConversion(id: string, response: ConvertResponse) returns (request: Option<ConvertRequest>)
      requires Valid()
      modifies this
      ensures Valid()
      ensures request == ConversionRequest(old(files), id)
      ensures files == if request.Some?
                       then UpdateById(UpdateById(old(files), id, ConversionStarted), id, ConvertChange(response))
                       else old(files)
      ensures uploading == old(uploading)
    {
      request := BeginConversion(id);
      if request.Some? {
        ConversionSettled(id, response);
      }
    }
  }

  // ---------------------------------------------------------------------------
  // What a whole conversion does to the list
  // ---------------------------------------------------------------------------

  /**
   * The record a conversion that passes the guard leaves behind: on success it
   * is completed at 100% with the download link, on failure it is in error with
   * the message and its progress is left at the 0 that the switch to
   * `converting` set. Identity, file, server id and chosen output are kept.
   */
  function ConvertedRecord(r: FileRecord, response: ConvertResponse): (s: FileRecord)
    ensures s.id == r.id && s.file == r.file
    ensures s.uploadedFileId == r.uploadedFileId && s.selectedOutput == r.selectedOutput
    ensures response.ConvertSuccess? ==>
              && s.status == Completed && s.progress == 100
              && s.downloadUrl == response.downloadUrl && s.outputInfo == response.outputInfo
    ensures response.ConvertFailure? ==>
              && s.status == Error && s.progress == 0 && s.error == Some(response.message)
              && s.downloadUrl == r.downloadUrl
  {
    Apply(Apply(r, ConversionStarted), ConvertChange(response))
  }

  /** With distinct ids, a whole conversion replaces the converted record and nothing else. */
  lemma ConversionOutcome(files: seq<FileRecord>, k: nat, response: ConvertResponse)
    requires DistinctIds(files) && k < |files|
    ensures UpdateById(UpdateById(files, files[k].id, ConversionStarted), files[k].id, ConvertChange(response))
         == files[k := ConvertedRecord(files[k], response)]
  {
    UpdateTwice(files, k, ConversionStarted, ConvertChange(response));
  }

  /** Two updates by the id of entry `k` compose on that entry alone. */
  lemma UpdateTwice(files: seq<FileRecord>, k: nat, c1: Change, c2: Change)
    requires DistinctIds(files) && k < |files|
    ensures UpdateById(UpdateById(files, files[k].id, c1), files[k].id, c2)
         == files[k := Apply(Apply(files[k], c1), c2)]
  {
    var mid := files[k := Apply(files[k], c1)];
    UpdateAtUniqueIndex(files, k, c1);
    ReplaceKeepsDistinctIds(files, k, Apply(files[k], c1));
    UpdateAtUniqueIndex(mid, k, c2);
    ReplaceTwice(files, k, Apply(files[k], c1), Apply(Apply(files[k], c1), c2));
  }

  /** Replacing an entry by one with the same id keeps the ids distinct. */
  lemma ReplaceKeepsDistinctIds(files: seq<FileRecord>, k: nat, x: FileRecord)
    requires DistinctIds(files) && k < |files| && x.id == files[k].id
    ensures DistinctIds(files[k := x])
  {
    assert forall i :: 0 <= i < |files| ==> files[k := x][i].id == files[i].id;
  }

  lemma ReplaceTwice<T>(s: seq<T>, k: nat, a: T, b: T)
    requires k < |s|
    ensures s[k := a][k := b] == s[k := b]
  {
  }
}
