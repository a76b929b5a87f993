/** A monitor alert and how its severity is set from a result string. */
module Alert {
  import opened Common

  datatype Severity = WARN | ERROR

  /** The alert record; every field may be unset. */
  datatype Alert = Alert(
    id: Option<string>, app: Option<string>, action: Option<string>, severity: Option<Severity>,
    errorCode: Option<string>, errorMessage: Option<string>, kibanaIndex: Option<string>, host: Option<string>)

  /** `severity(result)`: WARN for exactly the text "WARN", ERROR for any
      other text and for null. */
  function SetSeverity(alert: Alert, result: Option<string>): (a: Alert)
    ensures a.severity == Some(WARN) <==> result == Some("WARN")
    ensures a.severity == Some(ERROR) <==> result != Some("WARN")
    ensures a.(severity := alert.severity) == alert
  {
    alert.(severity := Some(if result == Some("WARN") then WARN else ERROR))
  }

  /** The new severity depends on the argument only, never on the severity
      the alert had before. */
  lemma SeverityIgnoresPrevious(alert: Alert, other: Alert, result: Option<string>)
    ensures SetSeverity(alert, result).severity == SetSeverity(other, result).severity
  {
  }

  /** The comparison is exact: other spellings of WARN, "ERROR" and "OK"
      all give ERROR. */
  lemma SeverityIsCaseSensitive(alert: Alert)
    ensures SetSeverity(alert, Some("warn")).severity == Some(ERROR)
    ensures SetSeverity(alert, Some("Warn")).severity == Some(ERROR)
    ensures SetSeverity(alert, Some("WARN ")).severity == Some(ERROR)
    ensures SetSeverity(alert, Some("ERROR")).severity == Some(ERROR)
    ensures SetSeverity(alert, Some("OK")).severity == Some(ERROR)
    ensures SetSeverity(alert, None).severity == Some(ERROR)
  {
    assert "warn"[0] != "WARN"[0];
    assert "Warn"[1] != "WARN"[1];
    assert |"WARN "| != |"WARN"|;
    assert "ERROR"[0] != "WARN"[0];
    assert "OK"[0] != "WARN"[0];
  }
}
