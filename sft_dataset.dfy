/**
 * gen_nova_sft_dataset.py: every spreadsheet row (a flag and an image file
 * name) becomes one training record in the Bedrock conversation format, a
 * user turn holding the image in S3 and the instruction, and an assistant
 * turn holding the expected answer `{"result":"<flag>"}`. Only JPEG images
 * make a record.
 *
 * The long system prompt is static text; it is a parameter here.
 */
module SftDataset {
  import opened Wrappers
  import opened PyStrings
  import Batch

  const AccountId: string := "687752207838"
  const S3Bucket: string := "687752207838-dify-files"
  const S3Prefix: string := "shein_img_tagging/imgs"
  const UserPrompt: string := "Please classify the item in this image according to the categories defined in the system."
  const SchemaVersion: string := "bedrock-conversation-2024"

  /** `{"s3Location": {"uri": ..., "bucketOwner": ...}}` */
  datatype S3Location = S3Location(uri: string, bucketOwner: string)

  /** One item of a message's `content`: an image in S3, or a text. */
  datatype Content =
    | Image(format: string, source: S3Location)
    | Text(text: string)

  datatype Role = User | Assistant

  datatype Message = Message(role: Role, content: seq<Content>)

  /** One line of the JSONL file: `schemaVersion`, the `system` texts and the `messages`. */
  datatype Record = Record(schemaVersion: string, system: seq<string>, messages: seq<Message>)

  // ---------------------------------------------------------------- image format

  /** `"jpeg" if filename.endswith(".jpg") else filename.split('.')[-1]` */
  function ImgFormat(filename: string): (f: string)
    ensures EndsWith(filename, ".jpg") ==> f == "jpeg"
    ensures '.' !in f
  {
    if EndsWith(filename, ".jpg") then "jpeg" else LastPiece(filename)
  }

  /** `filename.split('.')[-1]` */
  function LastPiece(filename: string): (piece: string)
    ensures '.' !in piece
  {
    var pieces := Split(filename, '.'); pieces[|pieces| - 1]
  }

  /** A last piece "jpeg" comes from a name ending in ".jpeg", or from the bare name "jpeg". */
  lemma JpegPieceFrom(s: string)
    requires LastPiece(s) == "jpeg"
    ensures EndsWith(s, ".jpeg") || s == "jpeg"
  {
    var last := LastPiece(s);
    LastPieceIsSuffix(s, '.');
    if |last| < |s| {
      assert s[|s| - 5] == '.';
      assert s[|s| - 5..] == [s[|s| - 5]] + s[|s| - 4..];
      assert ".jpeg" == ['.'] + "jpeg";
    } else {
      assert s[0..] == s;
    }
  }

  /** A name ending in ".jpeg", and the bare name "jpeg", have the last piece "jpeg". */
  lemma JpegPieceOf(s: string)
    requires EndsWith(s, ".jpeg") || s == "jpeg"
    ensures LastPiece(s) == "jpeg"
  {
    var last := LastPiece(s);
    LastPieceIsSuffix(s, '.');
    var tail := s[|s| - 4..];
    assert tail == "jpeg";
    assert '.' !in tail by {
      assert tail == ['j', 'p', 'e', 'g'];
    }
    if s == "jpeg" {
      assert |last| == |s|;
    } else {
      assert s[|s| - 5] == '.';
    }
  }

  /**
   * The format is "jpeg" exactly for names ending in ".jpg" or ".jpeg", and
   * for the bare name "jpeg" (which has no '.', so it is its own last piece).
   * The test is case-sensitive: ".JPG" and ".png" are not JPEG.
   */
  lemma JpegFormat(filename: string)
    ensures ImgFormat(filename) == "jpeg" <==>
      EndsWith(filename, ".jpg") || EndsWith(filename, ".jpeg") || filename == "jpeg"
  {
    if !EndsWith(filename, ".jpg") {
      if ImgFormat(filename) == "jpeg" {
        JpegPieceFrom(filename);
      }
      if EndsWith(filename, ".jpeg") || filename == "jpeg" {
        JpegPieceOf(filename);
      }
    }
  }

  // ---------------------------------------------------------------- records

  /** `f"s3://{s3_bucket}/{s3_prefix}/{filename}"` */
  function S3Path(filename: string): (uri: string)
    ensures StartsWith(uri, "s3://" + S3Bucket + "/" + S3Prefix + "/")
    ensures EndsWith(uri, filename)
  {
    "s3://" + S3Bucket + "/" + S3Prefix + "/" + filename
  }

  /**
   * `create_record(flag, filename)`: nothing for an image that is not JPEG;
   * otherwise the record whose user turn shows the image, stored under the
   * dataset prefix and owned by the account, with the instruction, and whose
   * assistant turn answers `flag`.
   */
  function CreateRecord(flag: string, filename: string, systemPrompt: string): (r: Option<Record>)
    ensures r.Some? <==> ImgFormat(filename) == "jpeg"
    ensures r.Some? ==>
      && r.value.schemaVersion == SchemaVersion
      && r.value.system == [systemPrompt]
      && |r.value.messages| == 2
      && r.value.messages[0].role == User
      && r.value.messages[0].content == [Image("jpeg", S3Location(S3Path(filename), AccountId)), Text(UserPrompt)]
      && r.value.messages[1] == Message(Assistant, [Text(flag)])
  {
    var s3Path := S3Path(filename);
    var imgFormat := ImgFormat(filename);
    if imgFormat != "jpeg" then None
    else
      Some(Record(
        SchemaVersion,
        [systemPrompt],
        [Message(User, [Image(imgFormat, S3Location(s3Path, AccountId)), Text(UserPrompt)]),
         Message(Assistant, [Text(flag)])]))
  }

  /** A record is made exactly for names ending in ".jpg" or ".jpeg" (and the bare name "jpeg"). */
  lemma RecordMadeForJpeg(flag: string, filename: string, systemPrompt: string)
    ensures CreateRecord(flag, filename, systemPrompt).Some? <==>
      EndsWith(filename, ".jpg") || EndsWith(filename, ".jpeg") || filename == "jpeg"
  {
    JpegFormat(filename);
  }

  /** The file name can be read back from a record's image URI: records of different images differ. */
  lemma RecordNamesImage(flag1: string, filename1: string, flag2: string, filename2: string, systemPrompt: string)
    requires CreateRecord(flag1, filename1, systemPrompt).Some?
    requires CreateRecord(flag1, filename1, systemPrompt) == CreateRecord(flag2, filename2, systemPrompt)
    ensures filename1 == filename2 && flag1 == flag2
  {
    var p := "s3://" + S3Bucket + "/" + S3Prefix + "/";
    var r := CreateRecord(flag1, filename1, systemPrompt).value;
    assert r.messages[0].content[0].source.uri == S3Path(filename1) == S3Path(filename2);
    assert S3Path(filename1)[|p|..] == filename1;
    assert S3Path(filename2)[|p|..] == filename2;
    assert r.messages[1].content[0] == Text(flag1) == Text(flag2);
  }

  // ---------------------------------------------------------------- the label

  const LabelHead: string := "{\"result\":\""
  const LabelTail: string := "\"}"

  /** `'{"result":"' + flag + '"}'`, with no escaping of `flag`. */
  function GtLabel(flag: string): (text: string)
    ensures StartsWith(text, LabelHead) && EndsWith(text, LabelTail)
    ensures |text| == |flag| + 13
  {
    LabelHead + flag + LabelTail
  }

  /** Reads the flag back out of a label. */
  function LabelFlag(text: string): (flag: Option<string>)
    ensures flag.Some? ==> |flag.value| + 13 == |text|
  {
    if |text| >= 13 && StartsWith(text, LabelHead) && EndsWith(text, LabelTail) then
      Some(text[|LabelHead|..|text| - |LabelTail|])
    else
      None
  }

  /** The flag can always be read back from its label, whatever characters it holds. */
  lemma LabelRoundTrip(flag: string)
    ensures LabelFlag(GtLabel(flag)) == Some(flag)
  {
    var text := GtLabel(flag);
    assert text[|LabelHead|..|text| - |LabelTail|] == flag;
  }

  /** Distinct flags give distinct labels. */
  lemma LabelInjective(flag1: string, flag2: string)
    requires GtLabel(flag1) == GtLabel(flag2)
    ensures flag1 == flag2
  {
    LabelRoundTrip(flag1);
    LabelRoundTrip(flag2);
  }

  /**
   * The JSON slice the tagging script takes of a reply keeps a label whole:
   * its first `{` is its first character and its last `}` its last one.
   */
  lemma LabelSurvivesJsonSlice(flag: string)
    ensures Batch.JsonSlice(GtLabel(flag)) == Some(GtLabel(flag))
  {
    var text := GtLabel(flag);
    assert text[0] == '{' && text[..0] == [];
    assert text[|text| - 1] == '}' && text[|text|..] == [];
    FindFirst(text, '{', 0);
    RFindLast(text, '}', |text| - 1);
    assert text[0..|text|] == text;
  }

  // ---------------------------------------------------------------- the dataset

  /** One spreadsheet row: its `flag` and `filename` cells. */
  datatype DatasetRow = DatasetRow(flag: string, filename: string)

  /** What one row writes: its record, if it has one. */
  function Written(row: DatasetRow, systemPrompt: string): (w: seq<Record>)
    ensures |w| <= 1
    ensures w != [] <==>
      EndsWith(row.filename, ".jpg") || EndsWith(row.filename, ".jpeg") || row.filename == "jpeg"
    ensures w != [] ==> CreateRecord(GtLabel(row.flag), row.filename, systemPrompt) == Some(w[0])
  {
    JpegFormat(row.filename);
    match CreateRecord(GtLabel(row.flag), row.filename, systemPrompt)
    case Some(record) => [record]
    case None => []
  }

  /** The records written for `rows`, in order: one per JPEG row. */
  function Records(rows: seq<DatasetRow>, systemPrompt: string): seq<Record> {
    if rows == [] then []
    else Records(rows[..|rows| - 1], systemPrompt) + Written(rows[|rows| - 1], systemPrompt)
  }

  lemma RecordsStep(rows: seq<DatasetRow>, n: nat, systemPrompt: string)
    requires n < |rows|
    ensures Records(rows[..n + 1], systemPrompt) == Records(rows[..n], systemPrompt) + Written(rows[n], systemPrompt)
  {
    assert rows[..n + 1][..n] == rows[..n];
  }

  /** Every record written answers with the label of some row and shows a JPEG image. */
  lemma {:induction false} RecordsAreLabelled(rows: seq<DatasetRow>, systemPrompt: string)
    ensures |Records(rows, systemPrompt)| <= |rows|
    ensures forall r :: r in Records(rows, systemPrompt) ==>
      exists row :: row in rows && Some(r) == CreateRecord(GtLabel(row.flag), row.filename, systemPrompt)
  {
    if rows != [] {
      var init := rows[..|rows| - 1];
      RecordsAreLabelled(init, systemPrompt);
      forall r | r in Records(rows, systemPrompt)
        ensures exists row :: row in rows && Some(r) == CreateRecord(GtLabel(row.flag), row.filename, systemPrompt)
      {
        if r in Records(init, systemPrompt) {
          var row :| row in init && Some(r) == CreateRecord(GtLabel(row.flag), row.filename, systemPrompt);
          assert row in rows;
        } else {
          assert rows[|rows| - 1] in rows;
        }
      }
    }
  }

  /** Every JPEG row is written: with only JPEG rows, there is one record per row. */
  lemma {:induction false} AllJpegRowsWritten(rows: seq<DatasetRow>, systemPrompt: string)
    requires forall i :: 0 <= i < |rows| ==> ImgFormat(rows[i].filename) == "jpeg"
    ensures |Records(rows, systemPrompt)| == |rows|
    ensures forall i :: 0 <= i < |rows| ==>
      Some(Records(rows, systemPrompt)[i]) == CreateRecord(GtLabel(rows[i].flag), rows[i].filename, systemPrompt)
  {
    if rows != [] {
      var init, last := rows[..|rows| - 1], rows[|rows| - 1];
      AllJpegRowsWritten(init, systemPrompt);
      var record := CreateRecord(GtLabel(last.flag), last.filename, systemPrompt);
      assert Written(last, systemPrompt) == [record.value];
      var records := Records(rows, systemPrompt);
      assert records == Records(init, systemPrompt) + [record.value];
      forall i | 0 <= i < |rows|
        ensures Some(records[i]) == CreateRecord(GtLabel(rows[i].flag), rows[i].filename, systemPrompt)
      {
        if i < |init| {
          assert records[i] == Records(init, systemPrompt)[i] && rows[i] == init[i];
        }
      }
    }
  }

  /**
   * The loop over the rows: the label of each row is built, its record made,
   * and the record written when there is one.
   */
  method GenerateDataset(rows: seq<DatasetRow>, systemPrompt: string) returns (written: seq<Record>)
    ensures written == Records(rows, systemPrompt)
  {
    written := [];
    var idx := 0;
    while idx < |rows|
      invariant idx <= |rows|
      invariant written == Records(rows[..idx], systemPrompt)
    {
      var row := rows[idx];
      var gtLabel := GtLabel(row.flag);
      var record := CreateRecord(gtLabel, row.filename, systemPrompt);
      if record.Some? {
        written := written + [record.value];
      }
      RecordsStep(rows, idx, systemPrompt);
      idx := idx + 1;
    }
    assert rows[..idx] == rows;
  }
}
