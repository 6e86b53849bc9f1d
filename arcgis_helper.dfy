/** `ArcGISHelper.FindCodedDomainDescription`: the description of a field value in a
    coded-value domain. */
module ArcGISHelper {
  import opened Wrappers
  import opened DotNetStrings
  import opened Seqs

  /** One code of a coded-value domain: the string form of its value (`Value[i]?.ToString()`,
      null for a null value) and its description (`Name[i]`). */
  datatype CodedValue = CodedValue(value: Option<string>, name: string)

  /** `IDomain`: a coded-value domain, or a domain of another kind (a range domain). */
  datatype Domain = CodedValueDomain(codes: seq<CodedValue>) | OtherDomain

  /** The comparison of the loop: both sides trimmed and upper-cased. */
  predicate CodeMatches(value: string, fieldValue: string) {
    ToUpper(Trim(value)) == ToUpper(Trim(fieldValue))
  }

  /** A code that ends the scan: a match, or a null value, on which `Trim` throws. */
  function StopsCodeScan(fieldValue: string): CodedValue -> bool {
    (c: CodedValue) => c.value.None? || CodeMatches(c.value.value, fieldValue)
  }

  /** What the scan over `codes` yields: the trimmed description of the first code
      whose value matches, a null reference when a null value comes first, and null
      when nothing matches. */
  function CodedDescription(codes: seq<CodedValue>, fieldValue: string): (r: Result<Option<string>>)
    ensures r.Success? && r.value.None? <==>
      forall c :: c in codes ==> c.value.Some? && !CodeMatches(c.value.value, fieldValue)
    ensures r.Failure? ==> r.error == NullReference && exists c :: c in codes && c.value.None?
  {
    var k := FirstIndex(codes, StopsCodeScan(fieldValue));
    if k == |codes| then
      assert forall c :: c in codes ==> !StopsCodeScan(fieldValue)(c);
      Success(None)
    else if codes[k].value.None? then Failure(NullReference)
    else Success(Some(Trim(codes[k].name)))
  }

  /** `domain.FindCodedDomainDescription(fieldValue)` as a value: null for a blank value,
      a null domain or a domain that is not a coded-value domain. */
  function DomainDescription(domain: Option<Domain>, fieldValue: Option<string>): (r: Result<Option<string>>)
    ensures IsNullOrWhiteSpace(fieldValue) || domain.None? || domain.value.OtherDomain? ==> r == Success(None)
    ensures !IsNullOrWhiteSpace(fieldValue) && domain.Some? && domain.value.CodedValueDomain? ==>
      r == CodedDescription(domain.value.codes, fieldValue.value)
    ensures r.Success? && r.value.Some? ==> exists c :: c in domain.value.codes && r.value.value == Trim(c.name)
  {
    if IsNullOrWhiteSpace(fieldValue) || domain.None? || domain.value.OtherDomain? then Success(None)
    else
      var r := CodedDescription(domain.value.codes, fieldValue.value);
      assert r.Success? && r.value.Some? ==> exists c :: c in domain.value.codes && r.value.value == Trim(c.name) by {
        if r.Success? && r.value.Some? {
          var k :| 0 <= k < |domain.value.codes| && r.value.value == Trim(domain.value.codes[k].name);
          assert domain.value.codes[k] in domain.value.codes;
        }
      }
      r
  }

  /** `domain.FindCodedDomainDescription(fieldValue)`: the guard, then the scan of
      a coded-value domain. */
  method FindCodedDomainDescription(domain: Option<Domain>, fieldValue: Option<string>)
    returns (r: Result<Option<string>>)
    ensures r == DomainDescription(domain, fieldValue)
  {
    if IsNullOrWhiteSpace(fieldValue) || domain.None? {
      return Success(None);
    }
    if domain.value.CodedValueDomain? {
      r := ScanCodes(domain.value.codes, fieldValue.value);
    } else {
      r := Success(None);
    }
  }

  /** The `while` loop over the codes, which stops after the first match. */
  method ScanCodes(codes: seq<CodedValue>, fieldValue: string) returns (r: Result<Option<string>>)
    ensures r == CodedDescription(codes, fieldValue)
  {
    var desc: Option<string> := None;
    var i := 0;
    while i < |codes| && desc.None?
      invariant 0 <= i <= |codes|
      invariant desc.None? ==>
        forall j :: 0 <= j < i ==> codes[j].value.Some? && !CodeMatches(codes[j].value.value, fieldValue)
      invariant desc.Some? ==> CodedDescription(codes, fieldValue) == Success(desc)
    {
      var strDomainVal := codes[i].value;
      if strDomainVal.None? {
        NullCodeFails(codes, fieldValue, i);
        return Failure(NullReference);
      }
      if CodeMatches(strDomainVal.value, fieldValue) {
        FirstCodeWins(codes, fieldValue, i);
        desc := Some(Trim(codes[i].name));
      } else {
        assert forall j :: 0 <= j < i + 1 ==> codes[j].value.Some? && !CodeMatches(codes[j].value.value, fieldValue);
      }
      i := i + 1;
    }
    if desc.None? {
      NoCodeMatches(codes, fieldValue);
    }
    r := Success(desc);
  }

  /** With two codes of the same value the first one's description is returned. */
  lemma FirstCodeWins(codes: seq<CodedValue>, fieldValue: string, k: nat)
    requires k < |codes| && codes[k].value.Some? && CodeMatches(codes[k].value.value, fieldValue)
    requires forall j :: 0 <= j < k ==> codes[j].value.Some? && !CodeMatches(codes[j].value.value, fieldValue)
    ensures CodedDescription(codes, fieldValue) == Success(Some(Trim(codes[k].name)))
  {
    FirstIndexUnique(codes, StopsCodeScan(fieldValue), k);
  }

  /** When no code matches and no value is null the scan finds nothing. */
  lemma NoCodeMatches(codes: seq<CodedValue>, fieldValue: string)
    requires forall j :: 0 <= j < |codes| ==> codes[j].value.Some? && !CodeMatches(codes[j].value.value, fieldValue)
    ensures CodedDescription(codes, fieldValue) == Success(None)
  {
    FirstIndexUnique(codes, StopsCodeScan(fieldValue), |codes|);
  }

  /** A null value reached before any match makes the scan throw. */
  lemma NullCodeFails(codes: seq<CodedValue>, fieldValue: string, k: nat)
    requires k < |codes| && codes[k].value.None?
    requires forall j :: 0 <= j < k ==> codes[j].value.Some? && !CodeMatches(codes[j].value.value, fieldValue)
    ensures CodedDescription(codes, fieldValue) == Failure(NullReference)
  {
    FirstIndexUnique(codes, StopsCodeScan(fieldValue), k);
  }

  /** White space around the field value makes no difference to the description found. */
  lemma PaddingIgnored(codes: seq<CodedValue>, fieldValue: string, w1: string, w2: string)
    requires AllWhiteSpace(w1) && AllWhiteSpace(w2)
    ensures CodedDescription(codes, w1 + fieldValue + w2) == CodedDescription(codes, fieldValue)
  {
    TrimPadded(w1, fieldValue, w2);
    FirstIndexEquivalent(codes, StopsCodeScan(w1 + fieldValue + w2), StopsCodeScan(fieldValue));
  }
}
