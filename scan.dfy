/** The `/scan` endpoint: checks the `code` query parameter, strips it and
    looks the medicine up. */
module Scan {
  import opened Strings
  import opened Extraction

  /** What the endpoint sends back: a 400 error for a missing code, or the
      lookup's outcome (sent with the default status). */
  datatype Response = BadRequest(status: nat, message: string) | Answer(outcome: Outcome)

  const MissingCodeStatus := 400
  const MissingCodeMessage := "Paramètre 'code' manquant"

  /** The code to look up: none when the parameter is absent or empty,
      otherwise the parameter without surrounding whitespace. */
  function CheckedCode(arg: Option<string>): (code: Option<string>)
  {
    if arg.None? || arg.value == "" then None else Some(Strip(arg.value))
  }

  /** `scan()`, with the `code` query parameter as `arg` and the network as `fetch`. */
  function Scan(arg: Option<string>, fetch: string -> Fetch): (r: Response)
  {
    match CheckedCode(arg)
    case None => BadRequest(MissingCodeStatus, MissingCodeMessage)
    case Some(code) => Answer(Lookup(code, fetch))
  }

  /** The request is turned away with status 400 exactly when the parameter
      is absent or empty; nothing is fetched in that case. */
  lemma ScanRejectsMissingCode(arg: Option<string>, fetch: string -> Fetch)
    ensures Scan(arg, fetch).BadRequest? <==> arg.None? || arg.value == ""
    ensures Scan(arg, fetch).BadRequest? ==> Scan(arg, fetch).status == 400
  {
  }

  /** A present, non-empty parameter is looked up after stripping: the code
      handed to the extractor has no whitespace at either end, is a slice
      of the parameter, and is the code of any record that comes back. */
  lemma ScanLooksUpStrippedCode(arg: Option<string>, fetch: string -> Fetch)
    requires arg.Some? && arg.value != ""
    ensures Scan(arg, fetch) == Answer(Lookup(Strip(arg.value), fetch))
    ensures IsStripped(Strip(arg.value))
    ensures exists i: nat, j: nat :: i <= j <= |arg.value| && Strip(arg.value) == arg.value[i..j]
    ensures Scan(arg, fetch).outcome.Medicine? ==> Scan(arg, fetch).outcome.codeCip == Strip(arg.value)
  {
    var i, j := StripSlice(arg.value);
    var p := fetch(LookupUrl(Strip(arg.value)));
    if p.Fetched? && Scan(arg, fetch).outcome.Medicine? {
      RecordFields(p.page, Strip(arg.value));
    }
  }

  /** The emptiness check comes before stripping, so a non-empty parameter
      made only of whitespace passes it and the empty code is looked up. */
  lemma BlankCodeIsLookedUp(arg: Option<string>, fetch: string -> Fetch)
    requires arg.Some? && arg.value != ""
    requires forall k :: 0 <= k < |arg.value| ==> IsSpace(arg.value[k])
    ensures Scan(arg, fetch) == Answer(Lookup("", fetch))
  {
    AllSpaceStripsToEmpty(arg.value);
  }
}
