/**
 * The generic confirmation dialog: it fills in the opener's
 * `ConfirmationDialogData` with default labels and kind, and picks an icon
 * from the kind.
 */
module ConfirmationDialog {
  import opened Wrappers
  import opened JsRuntime

  const DefaultConfirmText := "Confirm"
  const DefaultCancelText := "Cancel"
  const DefaultKind := "warning"

  /**
   * The data object handed to the dialog by its opener. `kind` is the
   * `type` field of the record; it is declared as 'warning' | 'danger' |
   * 'info' but nothing stops another string from arriving at run time.
   */
  class ConfirmationDialogData {
    var title: string
    var message: string
    var confirmText: Option<string>
    var cancelText: Option<string>
    var kind: Option<string>

    constructor (title: string, message: string, confirmText: Option<string>,
                 cancelText: Option<string>, kind: Option<string>)
      ensures this.title == title && this.message == message
      ensures this.confirmText == confirmText && this.cancelText == cancelText && this.kind == kind
    {
      this.title := title;
      this.message := message;
      this.confirmText := confirmText;
      this.cancelText := cancelText;
      this.kind := kind;
    }

    /** Every optional field holds a truthy value, as after initialisation. */
    predicate HasDefaults()
      reads this
    {
      Truthy(confirmText) && Truthy(cancelText) && Truthy(kind)
    }
  }

  class ConfirmationDialogComponent {
    const data: ConfirmationDialogData

    constructor (data: ConfirmationDialogData)
      ensures this.data == data
    {
      this.data := data;
    }

    /**
     * `ngOnInit()`: keep each supplied optional field that is truthy and
     * put the default in the others, in the shared data object. A second
     * call finds every field truthy and changes nothing.
     */
    method NgOnInit()
      modifies data`confirmText, data`cancelText, data`kind
      ensures data.confirmText == Some(Or(old(data.confirmText), DefaultConfirmText))
      ensures data.cancelText == Some(Or(old(data.cancelText), DefaultCancelText))
      ensures data.kind == Some(Or(old(data.kind), DefaultKind))
      ensures data.HasDefaults()
      ensures data.title == old(data.title) && data.message == old(data.message)
      ensures old(data.HasDefaults()) ==> unchanged(data)
    {
      data.confirmText := Some(Or(data.confirmText, DefaultConfirmText));
      data.cancelText := Some(Or(data.cancelText, DefaultCancelText));
      data.kind := Some(Or(data.kind, DefaultKind));
    }

    /** `getIconName()`: "info" for the info kind, "warning" for every other kind or none. */
    function IconName(): (icon: string)
      reads data
      ensures icon == "info" <==> data.kind == Some("info")
      ensures icon == "info" || icon == "warning"
    {
      if data.kind == Some("danger") then "warning"
      else if data.kind == Some("warning") then "warning"
      else if data.kind == Some("info") then "info"
      else "warning"
    }
  }
}
