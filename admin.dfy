/**
 * The helpers of the admin page script (`LDAPAdmin.utils` and
 * `LDAPAdmin.ui`) that decide something: its DN check, its e-mail check
 * and the icon shown for a message type.
 */
module AdminUtils {
  import opened JsText
  import opened Patterns
  import opened JsValues

  /** `isValidDN`: a non-empty string matching the DN pattern, of at most
      500 characters.  Unlike the server's check it forbids no character. */
  predicate IsValidDN(dn: Json) {
    dn.JStr? && dn.s != "" && DnShape(dn.s) && |dn.s| <= 500
  }

  /** Only non-empty strings of at most 500 characters pass, each starting
      with `letters=` and one more character; on one line that is all. */
  lemma IsValidDNBounds(dn: Json)
    ensures IsValidDN(dn) ==> dn.JStr? && 0 < |dn.s| <= 500 && LeadingAttr(dn.s)
    ensures dn.JStr? && NoLineTerminator(dn.s) ==>
              (IsValidDN(dn) <==> 0 < |dn.s| <= 500 && LeadingAttr(dn.s))
  {
    if IsValidDN(dn) { DnShapeLeadingAttr(dn.s); }
    if dn.JStr? && NoLineTerminator(dn.s) { DnShapeWithoutTerminators(dn.s); }
  }

  /** `isValidEmail`: the same expression as the form validator's. */
  predicate IsValidEmail(s: string) {
    EmailShape(s)
  }

  const Icons: map<string, string> := map[
    "success" := "check-circle",
    "error" := "exclamation-triangle",
    "warning" := "exclamation-circle",
    "info" := "info-circle",
    "danger" := "exclamation-triangle"]

  /** `getIconForType`: the table's icon, `'info-circle'` for any other type. */
  function IconForType(kind: string): (icon: string)
    ensures icon in Icons.Values
    ensures kind in Icons ==> icon == Icons[kind]
    ensures kind !in Icons ==> icon == Icons["info"]
  {
    if kind in Icons then
      var icon := Icons[kind];
      assert icon in Icons.Values;
      icon
    else
      assert Icons["info"] in Icons.Values;
      "info-circle"
  }

  /** `error` and `danger` share their icon. */
  lemma ErrorLooksLikeDanger()
    ensures IconForType("error") == IconForType("danger") != IconForType("info")
  {
  }
}
