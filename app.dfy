/**
 The application component: the current screen, the record collection and its
 copy in the browser's storage entry `beneficiary_records`, and the handlers
 that change them. React state updates are modelled as field assignments; the
 effect that rewrites the storage entry whenever the collection changes is
 folded into the handlers that change it.
 */
module AppState {
  import opened Wrappers
  import opened Types
  import opened Strings
  import Csv
  import Serial

  /** The two screens. */
  datatype View = Dashboard | Form

  /** The controls that switch screens: the dashboard's "Add New Record" button and the form's save and cancel. */
  datatype Control = AddNewRecord | SaveEntry | CancelEntry

  /**
   The screen a control leads to from screen `v`, or None when `v` does not show
   that control ("Add New Record" is on the dashboard only; save and cancel on
   the form only). Every possible step switches to the other screen, and the
   form is left only for the dashboard.
   */
  function Step(v: View, c: Control): (w: Option<View>)
    ensures w.Some? <==> if c == AddNewRecord then v == Dashboard else v == Form
    ensures w.Some? ==> w.value != v
  {
    match c
    case AddNewRecord => if v == Dashboard then Some(Form) else None
    case SaveEntry => if v == Form then Some(Dashboard) else None
    case CancelEntry => if v == Form then Some(Dashboard) else None
  }

  /**
   The example record the collection starts with when storage holds nothing: an
   Eligible record stamped `now` with id "1", no coordinates and no remarks,
   and whose serial number is the one the form offers for an empty collection.
   */
  function SeedRecord(now: int): (r: BeneficiaryRecord)
    ensures r.id == "1" && r.timestamp == now && r.status == Eligible
    ensures r.serialNumber == Serial.NextSerialNumber(0)
    ensures r.latitude.None? && r.longitude.None? && r.remarks == "" && r.imageUrl.None?
  {
    Serial.SerialPaddedExamples();
    BeneficiaryRecord("1", "001", "BALAGARH", "Haripur", "Gokulnagar", None, None,
                      "WB-102030", "Subhash Mondal", Eligible, "", "Amit Roy", "BDO",
                      "SRH-9988", None, now)
  }

  class App {
    var view: View
    var records: seq<BeneficiaryRecord>
    /** The storage entry; None stands for an absent (or empty) entry. */
    var storage: Option<seq<BeneficiaryRecord>>

    /** The storage entry holds the current collection. */
    ghost predicate Persisted()
      reads this
    {
      storage == Some(records)
    }

    /**
     Start-up: the dashboard, with the stored collection when there is one and
     the seed record (stamped `now`) otherwise; the collection is then written
     back to storage.
     */
    constructor (saved: Option<seq<BeneficiaryRecord>>, now: int)
      ensures view == Dashboard
      ensures records == if saved.Some? then saved.value else [SeedRecord(now)]
      ensures Persisted()
    {
      view := Dashboard;
      records := if saved.Some? then saved.value else [SeedRecord(now)];
      storage := Some(records);
    }

    /**
     Saving the form (a control the form screen shows): a record made of the
     form's fields, `id` and `now` goes in front of the unchanged collection, the collection is persisted, and the
     dashboard is shown.
     */
    method HandleSave(data: RecordInput, id: string, now: int)
      requires view == Form
      modifies this
      ensures Step(old(view), SaveEntry) == Some(view)
      ensures records == [WithIdentity(data, id, now)] + old(records)
      ensures Persisted()
      ensures view == Dashboard
    {
      var newRecord := WithIdentity(data, id, now);
      records := [newRecord] + records;
      storage := Some(records);
      view := Dashboard;
    }

    /** "Add New Record", shown on the dashboard only: shows the form; records and storage are untouched. */
    method OpenForm()
      requires view == Dashboard
      modifies this`view
      ensures Step(old(view), AddNewRecord) == Some(view)
      ensures view == Form
    {
      view := Form;
    }

    /** Cancelling the form, shown on the form only: back to the dashboard, nothing saved. */
    method Cancel()
      requires view == Form
      modifies this`view
      ensures Step(old(view), CancelEntry) == Some(view)
      ensures view == Dashboard
    {
      view := Dashboard;
    }

    /**
     The CSV text of the current collection: the header line, then one line per
     record, built by pushing each record's line and joining with newlines.
     */
    method ExportCsv(formatTime: int -> string) returns (content: string)
      ensures content == Csv.Text(records, formatTime)
    {
      var rs := records;
      var csvRows := [Csv.HeaderLine()];
      for i := 0 to |rs|
        invariant csvRows == Csv.Lines(rs[..i], formatTime)
      {
        var line := Csv.Row(rs[i], formatTime);
        Csv.LinesSnoc(rs, i, formatTime);
        csvRows := csvRows + [line];
      }
      assert rs[..|rs|] == rs;
      content := Join("\n", csvRows);
    }
  }

  /** Reloading from what the app last persisted gives back the same collection. */
  method Reload(app: App, now: int) returns (reloaded: App)
    requires app.Persisted()
    ensures reloaded.records == app.records && reloaded.view == Dashboard
  {
    reloaded := new App(app.storage, now);
  }
}
