/** What a service's name, labels and ports say (devnet/environment.go and
    devnet/internal/kurtosis/enclave.go). */
module ServiceNames {
  import opened Wrappers

  const MAX_INT := 0x7FFF_FFFF_FFFF_FFFF

  /** A running service as the engine reports it; port 0 is no port. */
  datatype Service = Service(
    uuid: string, privateIP: string, publicIP: string, ports: map<string, nat>, labels: map<string, string>)

  // ---- Numbers and names ----

  predicate IsDigit(c: char) {
    '0' <= c <= '9'
  }

  function ParseDigits(text: string): Option<nat> {
    if |text| == 0 || !IsDigit(text[|text| - 1]) then None
    else
      var digit := (text[|text| - 1] - '0') as nat;
      if |text| == 1 then Some(digit)
      else match ParseDigits(text[..|text| - 1])
           case None => None
           case Some(front) => Some(10 * front + digit)
  }

  /** `strconv.Atoi` on a 64-bit platform. */
  function Atoi(text: string): Option<int> {
    var signed := |text| > 0 && (text[0] == '-' || text[0] == '+');
    match ParseDigits(if signed then text[1..] else text)
    case None => None
    case Some(n) =>
      var value: int := if signed && text[0] == '-' then 0 - n else n;
      if -MAX_INT - 1 <= value <= MAX_INT then Some(value) else None
  }

  /** `strings.Split(text, "-")` */
  function Split(text: string): (parts: seq<string>)
    ensures |parts| > 0
  {
    if |text| == 0 then [""]
    else
      var parts := Split(text[1..]);
      if text[0] == '-' then [""] + parts else [[text[0]] + parts[0]] + parts[1..]
  }

  function AtLeastOne(index: Option<int>): Option<int> {
    if index.Some? && index.value >= 1 then index else None
  }

  function ServiceIndex(name: string): Option<int> {
    var parts := Split(name);
    if |parts| < 2 then None else AtLeastOne(Atoi(parts[1]))
  }

  const PARTICIPANT_LABEL := "qrl-tests.participant"
  const CLIENT_TYPE_LABEL := "qrl-package.client-type"

  function Label(labels: map<string, string>, key: string): string {
    if key in labels then labels[key] else ""
  }

  /** The label decides; only without one does the name. */
  function ParticipantIndex(name: string, labels: map<string, string>): (index: Option<int>)
    ensures index.Some? ==> index.value >= 1
  {
    var value := Label(labels, PARTICIPANT_LABEL);
    if value != "" then AtLeastOne(Atoi(value)) else ServiceIndex(name)
  }

  function Digit(n: nat): char
    requires n < 10
  {
    '0' + n as char
  }

  /** `strconv.Itoa` */
  function Itoa(n: nat): (text: string)
    ensures |text| > 0 && forall k :: 0 <= k < |text| ==> IsDigit(text[k])
  {
    if n < 10 then [Digit(n)] else Itoa(n / 10) + [Digit(n % 10)]
  }

  lemma {:induction false} ParseItoa(n: nat)
    ensures ParseDigits(Itoa(n)) == Some(n)
  {
    if n >= 10 {
      ParseItoa(n / 10);
      assert Itoa(n)[..|Itoa(n)| - 1] == Itoa(n / 10);
    }
  }

  lemma AtoiItoa(n: nat)
    requires n <= MAX_INT
    ensures Atoi(Itoa(n)) == Some(n)
  {
    ParseItoa(n);
    assert IsDigit(Itoa(n)[0]);
  }

  predicate NoDash(text: string) {
    forall k :: 0 <= k < |text| ==> text[k] != '-'
  }

  lemma {:induction false} SplitAtDash(part: string, rest: string)
    requires NoDash(part)
    ensures Split(part + "-" + rest) == [part] + Split(rest)
  {
    var text := part + "-" + rest;
    if |part| == 0 {
      assert text[1..] == rest;
    } else {
      assert text[1..] == part[1..] + "-" + rest;
      SplitAtDash(part[1..], rest);
      assert [part[0]] + part[1..] == part;
    }
  }

  lemma {:induction false} SplitWhole(part: string)
    requires NoDash(part)
    ensures Split(part) == [part]
  {
    if |part| > 0 {
      SplitWhole(part[1..]);
      assert [part[0]] + part[1..] == part;
    }
  }

  /** Without a label, qrl-package's names, such as el-1-go-qrl, give back the index they
      carry. */
  lemma NamesCarryIndex(kind: string, n: nat, rest: string, labels: map<string, string>)
    requires NoDash(kind) && 1 <= n <= MAX_INT && Label(labels, PARTICIPANT_LABEL) == ""
    ensures ParticipantIndex(kind + "-" + (Itoa(n) + "-" + rest), labels) == Some(n)
    ensures ParticipantIndex(kind + "-" + Itoa(n), labels) == Some(n)
  {
    AtoiItoa(n);
    SplitAtDash(Itoa(n), rest);
    SplitWhole(Itoa(n));
    SplitAtDash(kind, Itoa(n) + "-" + rest);
    SplitAtDash(kind, Itoa(n));
  }

  /** And a name without a dash carries none. */
  lemma PlainNamesCarryNone(name: string, labels: map<string, string>)
    requires NoDash(name) && Label(labels, PARTICIPANT_LABEL) == ""
    ensures ParticipantIndex(name, labels) == None
  {
    SplitWhole(name);
  }

  lemma {:induction false} ParsesIff(text: string)
    ensures ParseDigits(text).Some? <==> |text| > 0 && forall k :: 0 <= k < |text| ==> IsDigit(text[k])
  {
    if |text| > 1 {
      ParsesIff(text[..|text| - 1]);
    }
  }

  /** A sign at most, and then digits. */
  predicate IsNumeral(text: string) {
    var digits := if |text| > 0 && (text[0] == '-' || text[0] == '+') then text[1..] else text;
    |digits| > 0 && forall k :: 0 <= k < |digits| ==> IsDigit(digits[k])
  }

  /** A label decides, whatever the name says: it gives an index exactly when it is a
      number of at least 1 that fits. */
  lemma LabelDecides(name: string, labels: map<string, string>)
    requires Label(labels, PARTICIPANT_LABEL) != ""
    ensures var value, index := Label(labels, PARTICIPANT_LABEL), ParticipantIndex(name, labels);
            && (!IsNumeral(value) ==> index == None)
            && (IsNumeral(value) && value[0] == '-' ==> index == None)
            && (Atoi(value).None? || Atoi(value).value < 1 ==> index == None)
            && (Atoi(value).Some? && Atoi(value).value >= 1 ==> index == Atoi(value))
  {
    var value := Label(labels, PARTICIPANT_LABEL);
    ParsesIff(if value[0] == '-' || value[0] == '+' then value[1..] else value);
  }

  /** And the printed form of any index gives it back. */
  lemma LabelCarriesIndex(name: string, labels: map<string, string>, n: nat)
    requires 1 <= n <= MAX_INT && Label(labels, PARTICIPANT_LABEL) == Itoa(n)
    ensures ParticipantIndex(name, labels) == Some(n)
  {
    AtoiItoa(n);
  }

  // ---- Endpoints ----

  function HostPort(host: string, port: nat): string {
    (if ':' in host then "[" + host + "]" else host) + ":" + Itoa(port)
  }

  function PublicHostPort(service: Service, port: string): Option<string> {
    if port !in service.ports || service.ports[port] == 0 || service.publicIP == "" then None
    else Some(HostPort(service.publicIP, service.ports[port]))
  }

  function PublicEndpoint(service: Service, port: string, scheme: string): Option<string> {
    match PublicHostPort(service, port)
    case None => None
    case Some(hostPort) => Some(scheme + "://" + hostPort)
  }

  function OrEmpty(endpoint: Option<string>): string {
    if endpoint.Some? then endpoint.value else ""
  }
}
