/**
 The record types of the survey tool: the two-valued verification outcome and the
 beneficiary record, together with the form's payload (a record without `id` and
 `timestamp`).
 */
module Types {
  import opened Wrappers

  /** The outcome of a re-verification; the enum has exactly these two values. */
  datatype ValidationStatus = Eligible | Ineligible

  /**
   The enum's string value, which is what a record's status reads as in text:
   it holds no comma, quote or newline, so a status is written into a CSV line
   as it is.
   */
  function StatusText(s: ValidationStatus): (t: string)
    ensures |t| > 0 && ',' !in t && '"' !in t && '\n' !in t
  {
    match s
    case Eligible => "Eligible"
    case Ineligible => "Ineligible"
  }

  /** One verification event. Optional numeric fields are modelled as integers. */
  datatype BeneficiaryRecord = BeneficiaryRecord(
    id: string,
    serialNumber: string,
    blockName: string,
    gpName: string,
    village: string,
    latitude: Option<int>,
    longitude: Option<int>,
    beneficiaryId: string,
    beneficiaryName: string,
    status: ValidationStatus,
    remarks: string,
    superiorName: string,
    superiorDesignation: string,
    superiorIdSrh: string,
    imageUrl: Option<string>,
    timestamp: int)

  /** What the entry form hands over: every field of a record except `id` and `timestamp`. */
  datatype RecordInput = RecordInput(
    serialNumber: string,
    blockName: string,
    gpName: string,
    village: string,
    latitude: Option<int>,
    longitude: Option<int>,
    beneficiaryId: string,
    beneficiaryName: string,
    status: ValidationStatus,
    remarks: string,
    superiorName: string,
    superiorDesignation: string,
    superiorIdSrh: string,
    imageUrl: Option<string>)

  /** The form-supplied part of a record: the record with `id` and `timestamp` dropped. */
  function FieldsOf(r: BeneficiaryRecord): RecordInput
  {
    RecordInput(r.serialNumber, r.blockName, r.gpName, r.village, r.latitude, r.longitude,
                r.beneficiaryId, r.beneficiaryName, r.status, r.remarks, r.superiorName,
                r.superiorDesignation, r.superiorIdSrh, r.imageUrl)
  }

  /**
   The record built by spreading the form's fields and adding a fresh id and
   timestamp: the identity is exactly the one given, and dropping it again gives
   back the form's fields unchanged.
   */
  function WithIdentity(d: RecordInput, id: string, timestamp: int): (r: BeneficiaryRecord)
    ensures r.id == id && r.timestamp == timestamp
    ensures FieldsOf(r) == d
  {
    BeneficiaryRecord(id, d.serialNumber, d.blockName, d.gpName, d.village, d.latitude, d.longitude,
                      d.beneficiaryId, d.beneficiaryName, d.status, d.remarks, d.superiorName,
                      d.superiorDesignation, d.superiorIdSrh, d.imageUrl, timestamp)
  }
}
