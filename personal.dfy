/** The `personalized_contracts` table and the two handlers that compose
    documents: filling the active template with a recipient's name and
    address, and signing a generated contract.

    Signing reads the row's generated PDF, never its signed one, and the
    UPDATE writes only the signed PDF and the signature time: a second
    signing replaces the first instead of stacking a second signature. */
module Personal {
  import opened Outcomes
  import opened Documents
  import opened DataUri
  import opened Templates

  datatype PersonalRecord = PersonalRecord(
    id: nat,
    templateId: nat,
    name: string,
    address: string,
    generated: Blob,
    createdAt: int,
    signed: Option<Blob>,
    signatureTimestamp: Option<string>)

  /** The primary key: no two rows share an id. */
  predicate DistinctIds(rows: seq<PersonalRecord>)
  {
    forall i, j :: 0 <= i < j < |rows| ==> rows[i].id != rows[j].id
  }

  /** Looks a contract up by id: the first row with that id, if any. */
  function FindRecord(rows: seq<PersonalRecord>, personalId: int): (r: Option<PersonalRecord>)
    ensures r.Some? <==> exists i :: 0 <= i < |rows| && rows[i].id == personalId
    ensures r.Some? ==> r.value.id == personalId && r.value in rows
  {
    if rows == [] then None
    else if rows[0].id == personalId then Some(rows[0])
    else
      var r := FindRecord(rows[1..], personalId);
      assert forall i :: 1 <= i < |rows| ==> rows[i] == rows[1..][i - 1];
      r
  }

  /** The row after the signing UPDATE has written its two columns. */
  function WithSignature(rec: PersonalRecord, signedPdf: Blob, timestamp: string): PersonalRecord
  {
    rec.(signed := Some(signedPdf), signatureTimestamp := Some(timestamp))
  }

  /** The signing UPDATE: writes the signed PDF and the signing time into the
      rows with the given id; no other column and no other row changes. */
  function RecordSignature(rows: seq<PersonalRecord>, personalId: int, signedPdf: Blob, timestamp: string)
    : (after: seq<PersonalRecord>)
    ensures |after| == |rows|
    ensures forall i :: 0 <= i < |rows| && rows[i].id != personalId ==> after[i] == rows[i]
    ensures forall i :: 0 <= i < |rows| && rows[i].id == personalId ==>
              && after[i].signed == Some(signedPdf)
              && after[i].signatureTimestamp == Some(timestamp)
              && after[i].(signed := rows[i].signed, signatureTimestamp := rows[i].signatureTimestamp) == rows[i]
  {
    seq(|rows|, i requires 0 <= i < |rows| =>
      if rows[i].id == personalId then WithSignature(rows[i], signedPdf, timestamp) else rows[i])
  }

  /** Looking a row up after the UPDATE: the signed row carries the new
      signature, every other row is found as before. */
  lemma {:induction false} FindAfterSigning(rows: seq<PersonalRecord>, personalId: int, signedPdf: Blob,
                                            timestamp: string, k: int)
    ensures FindRecord(RecordSignature(rows, personalId, signedPdf, timestamp), k) ==
              match FindRecord(rows, k)
              case None => None
              case Some(rec) => Some(if k == personalId then WithSignature(rec, signedPdf, timestamp) else rec)
  {
    if rows != [] {
      var after := RecordSignature(rows, personalId, signedPdf, timestamp);
      var tail := RecordSignature(rows[1..], personalId, signedPdf, timestamp);
      assert after[1..] == tail;
      if rows[0].id != k {
        FindAfterSigning(rows[1..], personalId, signedPdf, timestamp, k);
      }
    }
  }

  /** Signing never changes which rows exist, nor any row's recipient,
      template or generated PDF. */
  lemma SigningKeepsGenerated(rows: seq<PersonalRecord>, personalId: int, signedPdf: Blob,
                              timestamp: string, k: int)
    ensures var before := FindRecord(rows, k);
            var after := FindRecord(RecordSignature(rows, personalId, signedPdf, timestamp), k);
            && (after.Some? <==> before.Some?)
            && (after.Some? ==>
                  && after.value.generated == before.value.generated
                  && after.value.name == before.value.name
                  && after.value.address == before.value.address
                  && after.value.templateId == before.value.templateId)
            && (k != personalId ==> after == before)
  {
    FindAfterSigning(rows, personalId, signedPdf, timestamp, k);
  }

  /** Signing the same row twice leaves only the second signature: the row
      reads as if the first signing had never happened. */
  lemma ResignReplaces(rows: seq<PersonalRecord>, personalId: int, firstPdf: Blob, firstTime: string,
                       secondPdf: Blob, secondTime: string)
    ensures FindRecord(RecordSignature(RecordSignature(rows, personalId, firstPdf, firstTime),
                                       personalId, secondPdf, secondTime), personalId)
            == FindRecord(RecordSignature(rows, personalId, secondPdf, secondTime), personalId)
  {
    var once := RecordSignature(rows, personalId, firstPdf, firstTime);
    FindAfterSigning(rows, personalId, firstPdf, firstTime, personalId);
    FindAfterSigning(once, personalId, secondPdf, secondTime, personalId);
    FindAfterSigning(rows, personalId, secondPdf, secondTime, personalId);
  }

  /** Composes the personalized contract from the active template. Storing
      the result as a new row is not part of this model. */
  method CreatePersonal(store: TemplateStore, name: string, address: string) returns (r: Result<Blob>)
    requires store.Valid()
    ensures forall k :: 0 <= k < |store.rows| && store.rows[k].isActive ==>
              FindActive(store.rows) == Some(store.rows[k])
    ensures FindActive(store.rows) == None ==> r == Failure(NoActiveTemplate)
    ensures FindActive(store.rows).Some? ==>
              var pdf := FindActive(store.rows).value.pdf;
              && (pdf == Empty ==> r == Failure(CorruptDocument))
              && (pdf == PdfFile([]) ==> r == Failure(EmptyDocument))
              && (pdf.PdfFile? && pdf.pages != [] ==>
                    r == Success(PdfFile(Stamped(pdf.pages, FirstPage, RecipientOverlay(name, address)))))
  {
    var found := FindActive(store.rows);
    if found.None? {
      return Failure(NoActiveTemplate);
    }
    forall k | 0 <= k < |store.rows| && store.rows[k].isActive
      ensures found == Some(store.rows[k])
    {
      FindActiveIsTheActive(store.rows, k);
    }
    r := Personalize(found.value.pdf, name, address);
  }

  class PersonalStore {
    var rows: seq<PersonalRecord>

    ghost predicate Valid()
      reads this
    {
      DistinctIds(rows)
    }

    constructor (initial: seq<PersonalRecord>)
      requires DistinctIds(initial)
      ensures Valid() && rows == initial
    {
      rows := initial;
    }

    /** Signs the generated contract of row `personalId` with the image in a
        data URI and records the signed PDF and the signing time on that row.
        The signature is parsed before the row is looked up. */
    method SignPersonal(personalId: int, signature: Option<string>, timestamp: string) returns (r: Result<int>)
      requires Valid()
      modifies this
      ensures Valid()
      ensures r.Failure? ==> rows == old(rows)
      ensures signature == None ==> r == Failure(MissingSignature)
      ensures signature.Some? && SignaturePayload(signature.value).Failure? ==> r == Failure(InvalidSignatureData)
      ensures signature.Some? && SignaturePayload(signature.value).Success? ==>
                var found := FindRecord(old(rows), personalId);
                if found == None || found.value.generated == Empty then
                  r == Failure(PdfNotFound)
                else if found.value.generated == PdfFile([]) then
                  r == Failure(EmptyDocument)
                else
                  var image := FromBase64(SignaturePayload(signature.value).value);
                  var pages := Stamped(found.value.generated.pages, LastPage, SignatureOverlay(image, timestamp));
                  && r == Success(personalId)
                  && rows == RecordSignature(old(rows), personalId, PdfFile(pages), timestamp)
    {
      if signature.None? {
        return Failure(MissingSignature);
      }
      var payload := SignaturePayload(signature.value);
      if payload.Failure? {
        return Failure(payload.error);
      }
      var image := FromBase64(payload.value);
      var found := FindRecord(rows, personalId);
      if found.None? || found.value.generated.Empty? {
        return Failure(PdfNotFound);
      }
      var signedPdf := Sign(found.value.generated, image, timestamp);
      if signedPdf.Failure? {
        return Failure(signedPdf.error);
      }
      rows := RecordSignature(rows, personalId, signedPdf.value, timestamp);
      r := Success(personalId);
    }
  }
}
