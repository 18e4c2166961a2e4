/** The certificate upload/edit form: its record of field values, the effect that
    loads or clears it, the per-field handlers, the file picker with its 10 MiB
    limit, the PDF preview test and the required-field check on submit. */
module UploadModal {
  import opened Seqs
  import opened Text

  /** The form record. Every field is text; `file` holds the file as a data URL. */
  datatype FormData = FormData(eventName: string, description: string, date: string, eventType: string, file: string)

  /** The record a new upload starts from. */
  const EmptyForm := FormData("", "", "", "Workshop", "")

  /** 10 MiB, the largest file the picker accepts. */
  const MaxFileBytes := 10 * 1024 * 1024

  const PdfPrefix := "data:application/pdf;"

  /** `isPdf`: the stored file is a PDF data URL. */
  function IsPdf(file: string): (r: bool)
    ensures r <==> |file| >= 21 && file[..21] == "data:application/pdf;"
    ensures r ==> file != ""
  {
    file != "" && StartsWith(file, PdfPrefix)
  }

  /** The three fields a submit requires. */
  predicate Complete(f: FormData) {
    f.eventName != "" && f.description != "" && f.date != ""
  }

  /** What a submit hands to the dashboard. */
  datatype SubmitOutcome =
    | Rejected(message: string, kind: string)   // `onSave(null, message, kind)`
    | Submitted(data: FormData)                 // `onSave(formData)`

  /** A file chosen in the picker: its size, and the data URL the browser's reader
      produces for it. */
  datatype PickedFile = PickedFile(size: nat, dataUrl: string)

  /** What the picker did with a selection. */
  datatype PickResult = NothingPicked | TooLarge | Loaded

  class UploadForm {
    var form: FormData

    /** The initial state: the record being edited, or an empty one. */
    constructor (editData: Option<FormData>)
      ensures form == editData.GetOr(EmptyForm)
    {
      form := editData.GetOr(EmptyForm);
    }

    /** The effect run when `editData` or `isOpen` change: load the edited record;
        with nothing to edit, clear the form once it is closed. */
    method Sync(editData: Option<FormData>, isOpen: bool)
      modifies this
      ensures editData.Some? ==> form == editData.value
      ensures editData.None? && !isOpen ==> form == EmptyForm
      ensures editData.None? && isOpen ==> form == old(form)
    {
      if editData.Some? {
        form := editData.value;
      } else if !isOpen {
        form := EmptyForm;
      }
    }

    /** `handleSubmit`: a form missing a required field is reported and stays open;
        a complete one is handed over unchanged and the form closes. The event type
        and the file are not required. */
    method Submit() returns (outcome: SubmitOutcome, close: bool)
      ensures !Complete(form) ==> outcome == Rejected("Please fill all required fields", "error") && !close
      ensures Complete(form) ==> outcome == Submitted(form) && close
    {
      if form.eventName == "" || form.description == "" || form.date == "" {
        outcome := Rejected("Please fill all required fields", "error");
        close := false;
        return;
      }
      outcome := Submitted(form);
      close := true;
    }

    /** `handleFileUpload`: a file over 10 MiB (10485760 bytes) is refused and
        nothing changes; otherwise only the `file` field takes the file's data URL. */
    method PickFile(picked: Option<PickedFile>) returns (result: PickResult)
      modifies this
      ensures picked.None? ==> result == NothingPicked && form == old(form)
      ensures picked.Some? && picked.value.size > 10485760 ==> result == TooLarge && form == old(form)
      ensures picked.Some? && picked.value.size <= 10485760 ==>
        result == Loaded && form == old(form).(file := picked.value.dataUrl)
    {
      result := NothingPicked;
      if picked.Some? {
        if picked.value.size > MaxFileBytes {
          result := TooLarge;
          return;
        }
        form := form.(file := picked.value.dataUrl);
        result := Loaded;
      }
    }

    method SetEventName(value: string)
      modifies this
      ensures form == old(form).(eventName := value)
    {
      form := form.(eventName := value);
    }

    method SetDescription(value: string)
      modifies this
      ensures form == old(form).(description := value)
    {
      form := form.(description := value);
    }

    method SetDate(value: string)
      modifies this
      ensures form == old(form).(date := value)
    {
      form := form.(date := value);
    }

    method SetEventType(value: string)
      modifies this
      ensures form == old(form).(eventType := value)
    {
      form := form.(eventType := value);
    }
  }

  /** Clearing the form leaves nothing that a submit would accept. */
  lemma EmptyFormIsIncomplete()
    ensures !Complete(EmptyForm) && EmptyForm.eventType == "Workshop" && !IsPdf(EmptyForm.file)
  {
  }

  /** Filling in the three required fields, in any state, makes a submit go through. */
  lemma {:induction false} RequiredFieldsSuffice(f: FormData, name: string, desc: string, date: string)
    requires name != "" && desc != "" && date != ""
    ensures Complete(f.(eventName := name).(description := desc).(date := date))
  {
  }
}
