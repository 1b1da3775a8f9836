/**
 * The shaping of a parsed syslog message into a record (`parse_syslog`):
 * the fixed fields, the structured-data elements, the year rule for dates
 * without a year, and the function's static type.
 */
module ParseSyslog {
  import opened Wrappers
  import opened Values
  import opened Kinds
  import opened TypeDefs

  /** Severity levels of RFC 5424 (section 6.2.1), numerical codes 0 to 7. */
  datatype Severity = Emergency | Alert | Critical | Error | Warning | Notice | Informational | Debug

  /** Facilities of RFC 5424 (section 6.2.1), numerical codes 0 to 23. */
  datatype Facility =
    | Kern | User | Mail | Daemon | Auth | Syslog | Lpr | News | Uucp | Cron | Authpriv | Ftp
    | Ntp | Audit | AlertFacility | Clockd
    | Local0 | Local1 | Local2 | Local3 | Local4 | Local5 | Local6 | Local7

  function SeverityName(s: Severity): (name: string)
    ensures |name| > 0
  {
    match s
    case Emergency => "emerg"
    case Alert => "alert"
    case Critical => "crit"
    case Error => "err"
    case Warning => "warning"
    case Notice => "notice"
    case Informational => "info"
    case Debug => "debug"
  }

  function FacilityName(f: Facility): (name: string)
    ensures |name| > 0
  {
    match f
    case Kern => "kern"
    case User => "user"
    case Mail => "mail"
    case Daemon => "daemon"
    case Auth => "auth"
    case Syslog => "syslog"
    case Lpr => "lpr"
    case News => "news"
    case Uucp => "uucp"
    case Cron => "cron"
    case Authpriv => "authpriv"
    case Ftp => "ftp"
    case Ntp => "ntp"
    case Audit => "audit"
    case AlertFacility => "alert"
    case Clockd => "clockd"
    case Local0 => "local0"
    case Local1 => "local1"
    case Local2 => "local2"
    case Local3 => "local3"
    case Local4 => "local4"
    case Local5 => "local5"
    case Local6 => "local6"
    case Local7 => "local7"
  }

  /** The header format: BSD syslog (RFC 3164) has no version; RFC 5424
      carries a VERSION field (section 6.2.2). */
  datatype Protocol = RFC3164 | RFC5424(version: nat)

  /** A process id: numeric, or a process name. */
  datatype ProcId = PID(pid: int) | Name(name: string)

  /** An SD-ELEMENT of RFC 5424 (section 6.3): its SD-ID and its params in
      order of appearance. */
  datatype StructuredElement = StructuredElement(id: string, params: seq<(string, string)>)

  /** A parsed message. The timestamp is already converted to UTC (an
      instant, in the units of `Value.Timestamp`). */
  datatype Message = Message(
    timestamp: Option<int>,
    hostname: Option<string>,
    severity: Option<Severity>,
    facility: Option<Facility>,
    appname: Option<string>,
    procid: Option<ProcId>,
    msgid: Option<string>,
    protocol: Protocol,
    structuredData: seq<StructuredElement>,
    msg: string)

  /** The keys the fixed fields of a message may occupy. */
  function FixedKeys(): set<string>
  {
    {"message"} + {"hostname"} + {"severity"} + {"facility"} + {"version"} + {"appname"} + {"msgid"} + {"timestamp"} + {"procid"}
  }

  /** The fixed keys are pairwise distinct. */
  lemma FixedKeysDistinct()
    ensures "message" != "hostname"
    ensures "message" != "severity"
    ensures "message" != "facility"
    ensures "message" != "version"
    ensures "message" != "appname"
    ensures "message" != "msgid"
    ensures "message" != "timestamp"
    ensures "message" != "procid"
    ensures "hostname" != "severity"
    ensures "hostname" != "facility"
    ensures "hostname" != "version"
    ensures "hostname" != "appname"
    ensures "hostname" != "msgid"
    ensures "hostname" != "timestamp"
    ensures "hostname" != "procid"
    ensures "severity" != "facility"
    ensures "severity" != "version"
    ensures "severity" != "appname"
    ensures "severity" != "msgid"
    ensures "severity" != "timestamp"
    ensures "severity" != "procid"
    ensures "facility" != "version"
    ensures "facility" != "appname"
    ensures "facility" != "msgid"
    ensures "facility" != "timestamp"
    ensures "facility" != "procid"
    ensures "version" != "appname"
    ensures "version" != "msgid"
    ensures "version" != "timestamp"
    ensures "version" != "procid"
    ensures "appname" != "msgid"
    ensures "appname" != "timestamp"
    ensures "appname" != "procid"
    ensures "msgid" != "timestamp"
    ensures "msgid" != "procid"
    ensures "timestamp" != "procid"
  {
  }

  /** The value `message_to_value` puts under a fixed key, if the message
      has that part: the text under `message`, the keyword names of
      severity and facility, the RFC 5424 version, the process id as an
      integer or a name. */
  function FixedField(m: Message, key: string): Option<Value>
  {
    if key == "message" then Some(Bytes(m.msg))
    else if key == "hostname" then (if m.hostname.Some? then Some(Bytes(m.hostname.value)) else None)
    else if key == "severity" then (if m.severity.Some? then Some(Bytes(SeverityName(m.severity.value))) else None)
    else if key == "facility" then (if m.facility.Some? then Some(Bytes(FacilityName(m.facility.value))) else None)
    else if key == "version" then (if m.protocol.RFC5424? then Some(Integer(m.protocol.version)) else None)
    else if key == "appname" then (if m.appname.Some? then Some(Bytes(m.appname.value)) else None)
    else if key == "msgid" then (if m.msgid.Some? then Some(Bytes(m.msgid.value)) else None)
    else if key == "timestamp" then (if m.timestamp.Some? then Some(Timestamp(m.timestamp.value)) else None)
    else if key == "procid" then (if m.procid.Some? then Some(ProcIdValue(m.procid.value)) else None)
    else None
  }

  /** The record's fixed fields: every fixed key whose part the message has.
      The keys are distinct, so the order of insertion does not matter. */
  function FixedFields(m: Message): (r: map<string, Value>)
    ensures r.Keys <= FixedKeys()
    ensures "message" in r && r["message"] == Bytes(m.msg)
  {
    FixedFieldsAmong(m, FixedKeys())
  }

  /** The fixed fields of `m` under the keys `keys`. */
  function FixedFieldsAmong(m: Message, keys: set<string>): (r: map<string, Value>)
    ensures r.Keys <= keys
  {
    map k | k in keys && FixedField(m, k).Some? :: FixedField(m, k).value
  }

  /** What `FixedField` gives under each fixed key. */
  lemma FixedFieldAt(m: Message)
    ensures FixedField(m, "message") == Some(Bytes(m.msg))
    ensures FixedField(m, "hostname") == if m.hostname.Some? then Some(Bytes(m.hostname.value)) else None
    ensures FixedField(m, "severity") == if m.severity.Some? then Some(Bytes(SeverityName(m.severity.value))) else None
    ensures FixedField(m, "facility") == if m.facility.Some? then Some(Bytes(FacilityName(m.facility.value))) else None
    ensures FixedField(m, "version") == if m.protocol.RFC5424? then Some(Integer(m.protocol.version)) else None
    ensures FixedField(m, "appname") == if m.appname.Some? then Some(Bytes(m.appname.value)) else None
    ensures FixedField(m, "msgid") == if m.msgid.Some? then Some(Bytes(m.msgid.value)) else None
    ensures FixedField(m, "timestamp") == if m.timestamp.Some? then Some(Timestamp(m.timestamp.value)) else None
    ensures FixedField(m, "procid") == if m.procid.Some? then Some(ProcIdValue(m.procid.value)) else None
  {
    FixedKeysDistinct();
  }

  /** Taking one more key into account inserts its field, if any. */
  lemma FixedFieldsAmongStep(m: Message, keys: set<string>, key: string)
    ensures FixedFieldsAmong(m, keys + {key}) ==
      if FixedField(m, key).Some? then FixedFieldsAmong(m, keys)[key := FixedField(m, key).value]
      else FixedFieldsAmong(m, keys)
  {
  }

  /** A numeric process id is an integer, a named one a string. */
  function ProcIdValue(p: ProcId): (v: Value)
    ensures p.PID? <==> v.Integer?
    ensures p.PID? ==> v == Integer(p.pid)
    ensures p.Name? ==> v == Bytes(p.name)
  {
    match p
    case PID(pid) => Integer(pid)
    case Name(name) => Bytes(name)
  }

  /** Every optional key is present exactly when the message has that part;
      `version` exactly for an RFC 5424 header. */
  lemma FixedFieldsPresence(m: Message)
    ensures "hostname" in FixedFields(m) <==> m.hostname.Some?
    ensures "severity" in FixedFields(m) <==> m.severity.Some?
    ensures "facility" in FixedFields(m) <==> m.facility.Some?
    ensures "version" in FixedFields(m) <==> m.protocol.RFC5424?
    ensures "appname" in FixedFields(m) <==> m.appname.Some?
    ensures "msgid" in FixedFields(m) <==> m.msgid.Some?
    ensures "timestamp" in FixedFields(m) <==> m.timestamp.Some?
    ensures "procid" in FixedFields(m) <==> m.procid.Some?
  {
    FixedFieldAt(m);
  }

  /** The values of the header keys. */
  lemma FixedFieldsHeader(m: Message)
    ensures m.hostname.Some? ==> FixedFields(m)["hostname"] == Bytes(m.hostname.value)
    ensures m.severity.Some? ==> FixedFields(m)["severity"] == Bytes(SeverityName(m.severity.value))
    ensures m.facility.Some? ==> FixedFields(m)["facility"] == Bytes(FacilityName(m.facility.value))
    ensures m.protocol.RFC5424? ==> FixedFields(m)["version"] == Integer(m.protocol.version)
  {
    FixedFieldAt(m);
  }

  /** The values of the application keys. */
  lemma FixedFieldsApplication(m: Message)
    ensures m.appname.Some? ==> FixedFields(m)["appname"] == Bytes(m.appname.value)
    ensures m.msgid.Some? ==> FixedFields(m)["msgid"] == Bytes(m.msgid.value)
    ensures m.timestamp.Some? ==> FixedFields(m)["timestamp"] == Timestamp(m.timestamp.value)
    ensures m.procid.Some? ==> FixedFields(m)["procid"] == ProcIdValue(m.procid.value)
  {
    FixedFieldAt(m);
  }

  /** The object an SD-ELEMENT's params become, param by param. */
  function ParamsMap(ps: seq<(string, string)>): map<string, Value>
  {
    if ps == [] then map[]
    else ParamsMap(ps[..|ps| - 1])[ps[|ps| - 1].0 := Bytes(ps[|ps| - 1].1)]
  }

  /** The params object has one string field per param name, holding the
      value of the last param with that name. */
  lemma {:induction false} ParamsMapSpec(ps: seq<(string, string)>)
    ensures forall k :: k in ParamsMap(ps) <==> exists i :: 0 <= i < |ps| && ps[i].0 == k
    ensures forall i :: 0 <= i < |ps| && (forall j :: i < j < |ps| ==> ps[j].0 != ps[i].0) ==>
      ps[i].0 in ParamsMap(ps) && ParamsMap(ps)[ps[i].0] == Bytes(ps[i].1)
  {
    if ps != [] {
      var prefix := ps[..|ps| - 1];
      ParamsMapSpec(prefix);
      LastWins(ps, prefix, ParamsMap(prefix));
    }
  }

  /** Keys and last-wins values carry over from a sequence without its last
      element to the whole sequence. */
  lemma LastWins(ps: seq<(string, string)>, prefix: seq<(string, string)>, r: map<string, Value>)
    requires ps != [] && prefix == ps[..|ps| - 1]
    requires forall k :: k in r <==> exists i :: 0 <= i < |prefix| && prefix[i].0 == k
    requires forall i :: 0 <= i < |prefix| && (forall j :: i < j < |prefix| ==> prefix[j].0 != prefix[i].0) ==>
      prefix[i].0 in r && r[prefix[i].0] == Bytes(prefix[i].1)
    ensures
      var last := ps[|ps| - 1];
      var r' := r[last.0 := Bytes(last.1)];
      (forall k :: k in r' <==> exists i :: 0 <= i < |ps| && ps[i].0 == k) &&
      (forall i :: 0 <= i < |ps| && (forall j :: i < j < |ps| ==> ps[j].0 != ps[i].0) ==>
        ps[i].0 in r' && r'[ps[i].0] == Bytes(ps[i].1))
  {
    var last := ps[|ps| - 1];
    var r' := r[last.0 := Bytes(last.1)];
    forall k ensures k in r' <==> exists i :: 0 <= i < |ps| && ps[i].0 == k {
      if k in r' && k != last.0 {
        var i :| 0 <= i < |prefix| && prefix[i].0 == k;
        assert ps[i] == prefix[i];
      }
      if k !in r' {
        forall i | 0 <= i < |ps| ensures ps[i].0 != k {
          if i < |prefix| {
            assert ps[i] == prefix[i];
          }
        }
      }
    }
    forall i | 0 <= i < |ps| && (forall j :: i < j < |ps| ==> ps[j].0 != ps[i].0)
      ensures ps[i].0 in r' && r'[ps[i].0] == Bytes(ps[i].1)
    {
      if i < |prefix| {
        assert ps[i] == prefix[i];
        assert ps[|ps| - 1].0 != ps[i].0;
        forall j | i < j < |prefix| ensures prefix[j].0 != prefix[i].0 {
          assert prefix[j] == ps[j];
        }
      }
    }
  }

  /** The record after the structured-data elements are inserted over
      `base`, in order, each SD-ID holding the object of its params. */
  function WithStructuredData(base: map<string, Value>, els: seq<StructuredElement>): map<string, Value>
  {
    if els == [] then base
    else WithStructuredData(base, els[..|els| - 1])[els[|els| - 1].id := Object(ParamsMap(els[|els| - 1].params))]
  }

  /** Every SD-ID becomes a key; a later element (or any element over a
      fixed field) with the same name wins; keys no element names keep their
      value. */
  lemma {:induction false} WithStructuredDataSpec(base: map<string, Value>, els: seq<StructuredElement>)
    ensures forall k :: k in WithStructuredData(base, els) <==> k in base || exists i :: 0 <= i < |els| && els[i].id == k
    ensures forall k :: k in base && (forall i :: 0 <= i < |els| ==> els[i].id != k) ==>
      WithStructuredData(base, els)[k] == base[k]
    ensures forall i :: 0 <= i < |els| && (forall j :: i < j < |els| ==> els[j].id != els[i].id) ==>
      els[i].id in WithStructuredData(base, els) &&
      WithStructuredData(base, els)[els[i].id] == Object(ParamsMap(els[i].params))
  {
    if els != [] {
      var prefix := els[..|els| - 1];
      WithStructuredDataSpec(base, prefix);
      LaterElementWins(base, els, prefix, WithStructuredData(base, prefix));
    }
  }

  /** The contract of `WithStructuredData` carries over from a sequence of
      elements without its last one to the whole sequence. */
  lemma LaterElementWins(base: map<string, Value>, els: seq<StructuredElement>, prefix: seq<StructuredElement>, r: map<string, Value>)
    requires els != [] && prefix == els[..|els| - 1]
    requires forall k :: k in r <==> k in base || exists i :: 0 <= i < |prefix| && prefix[i].id == k
    requires forall k :: k in base && (forall i :: 0 <= i < |prefix| ==> prefix[i].id != k) ==> r[k] == base[k]
    requires forall i :: 0 <= i < |prefix| && (forall j :: i < j < |prefix| ==> prefix[j].id != prefix[i].id) ==>
      prefix[i].id in r && r[prefix[i].id] == Object(ParamsMap(prefix[i].params))
    ensures
      var last := els[|els| - 1];
      var r' := r[last.id := Object(ParamsMap(last.params))];
      (forall k :: k in r' <==> k in base || exists i :: 0 <= i < |els| && els[i].id == k) &&
      (forall k :: k in base && (forall i :: 0 <= i < |els| ==> els[i].id != k) ==> r'[k] == base[k]) &&
      (forall i :: 0 <= i < |els| && (forall j :: i < j < |els| ==> els[j].id != els[i].id) ==>
        els[i].id in r' && r'[els[i].id] == Object(ParamsMap(els[i].params)))
  {
    var last := els[|els| - 1];
    var r' := r[last.id := Object(ParamsMap(last.params))];
    forall k ensures k in r' <==> k in base || exists i :: 0 <= i < |els| && els[i].id == k {
      if k in r && k !in base && k != last.id {
        var i :| 0 <= i < |prefix| && prefix[i].id == k;
        assert els[i] == prefix[i];
      }
      if k !in r' {
        forall i | 0 <= i < |els| ensures els[i].id != k {
          if i < |prefix| {
            assert els[i] == prefix[i];
          }
        }
      }
    }
    forall k | k in base && (forall i :: 0 <= i < |els| ==> els[i].id != k)
      ensures r'[k] == base[k]
    {
      assert els[|els| - 1].id != k;
      forall i | 0 <= i < |prefix| ensures prefix[i].id != k {
        assert prefix[i] == els[i];
      }
    }
    forall i | 0 <= i < |els| && (forall j :: i < j < |els| ==> els[j].id != els[i].id)
      ensures els[i].id in r' && r'[els[i].id] == Object(ParamsMap(els[i].params))
    {
      if i < |prefix| {
        assert els[i] == prefix[i];
        assert els[|els| - 1].id != els[i].id;
        forall j | i < j < |prefix| ensures prefix[j].id != prefix[i].id {
          assert prefix[j] == els[j];
        }
      }
    }
  }

  /** The fields of the record `message_to_value` builds. */
  function MessageFields(m: Message): map<string, Value>
  {
    WithStructuredData(FixedFields(m), m.structuredData)
  }

  /** The record holds every fixed field (so always `message`), and any
      other key is an SD-ID of the message. */
  lemma MessageFieldsKeys(m: Message)
    ensures "message" in MessageFields(m)
    ensures forall k :: k in FixedFields(m) ==> k in MessageFields(m)
    ensures forall k :: k in MessageFields(m) && k !in FixedKeys() ==>
      exists i :: 0 <= i < |m.structuredData| && m.structuredData[i].id == k
  {
    WithStructuredDataSpec(FixedFields(m), m.structuredData);
  }

  /** No SD-ID of the message collides with a fixed key. */
  predicate NoShadowing(m: Message)
  {
    forall i :: 0 <= i < |m.structuredData| ==> m.structuredData[i].id !in FixedKeys()
  }

  /** Without a colliding SD-ID, the fixed fields come through unchanged:
      in particular `message` holds the message text. */
  lemma FixedFieldsKept(m: Message)
    requires NoShadowing(m)
    ensures forall k :: k in FixedKeys() ==> (k in MessageFields(m) <==> k in FixedFields(m))
    ensures forall k :: k in FixedFields(m) ==> MessageFields(m)[k] == FixedFields(m)[k]
    ensures MessageFields(m)["message"] == Bytes(m.msg)
  {
    var els := m.structuredData;
    WithStructuredDataSpec(FixedFields(m), els);
    forall k | k in FixedKeys()
      ensures (k in MessageFields(m) <==> k in FixedFields(m))
      ensures k in FixedFields(m) ==> MessageFields(m)[k] == FixedFields(m)[k]
    {
      forall i | 0 <= i < |els| ensures els[i].id != k {
      }
    }
  }

  /** `message_to_value`: the fixed fields, then each structured-data
      element as an object of its params, inserted in order. */
  method MessageToValue(message: Message) returns (v: Value)
    ensures v == Object(MessageFields(message))
  {
    var result := InsertFixedFields(message);
    var elements := message.structuredData;
    ghost var fixed := result;
    for i := 0 to |elements|
      invariant result == WithStructuredData(fixed, elements[..i])
    {
      var element := elements[i];
      var sdata := ParamsObject(element.params);
      assert elements[..i + 1][..i] == elements[..i];
      result := result[element.id := Object(sdata)];
    }
    assert elements[..|elements|] == elements;
    return Object(result);
  }

  /** The conditional inserts of the header fields at the start of
      `message_to_value`: the result holds exactly the fixed fields. */
  method InsertFixedFields(message: Message) returns (result: map<string, Value>)
    ensures result == FixedFields(message)
  {
    result := map["message" := Bytes(message.msg)];
    FixedFieldAt(message);
    assert result == FixedFieldsAmong(message, {"message"});
    result := InsertHeaderFields(message, result);
    result := InsertApplicationFields(message, result);
  }

  /** The header inserts: hostname, severity, facility and, for RFC 5424,
      the version. */
  method InsertHeaderFields(message: Message, fields: map<string, Value>) returns (result: map<string, Value>)
    requires fields == FixedFieldsAmong(message, {"message"})
    ensures result == FixedFieldsAmong(message, {"message"} + {"hostname"} + {"severity"} + {"facility"} + {"version"})
  {
    FixedFieldAt(message);
    result := fields;
    ghost var done: set<string> := {"message"};
    FixedFieldsAmongStep(message, done, "hostname");
    if message.hostname.Some? {
      result := result["hostname" := Bytes(message.hostname.value)];
    }
    done := done + {"hostname"};
    FixedFieldsAmongStep(message, done, "severity");
    if message.severity.Some? {
      result := result["severity" := Bytes(SeverityName(message.severity.value))];
    }
    done := done + {"severity"};
    FixedFieldsAmongStep(message, done, "facility");
    if message.facility.Some? {
      result := result["facility" := Bytes(FacilityName(message.facility.value))];
    }
    done := done + {"facility"};
    FixedFieldsAmongStep(message, done, "version");
    if message.protocol.RFC5424? {
      result := result["version" := Integer(message.protocol.version)];
    }
  }

  /** The application inserts: appname, msgid, timestamp and procid. */
  method InsertApplicationFields(message: Message, fields: map<string, Value>) returns (result: map<string, Value>)
    requires fields == FixedFieldsAmong(message, {"message"} + {"hostname"} + {"severity"} + {"facility"} + {"version"})
    ensures result == FixedFields(message)
  {
    FixedFieldAt(message);
    result := fields;
    ghost var done: set<string> := {"message"} + {"hostname"} + {"severity"} + {"facility"} + {"version"};
    FixedFieldsAmongStep(message, done, "appname");
    if message.appname.Some? {
      result := result["appname" := Bytes(message.appname.value)];
    }
    done := done + {"appname"};
    FixedFieldsAmongStep(message, done, "msgid");
    if message.msgid.Some? {
      result := result["msgid" := Bytes(message.msgid.value)];
    }
    done := done + {"msgid"};
    FixedFieldsAmongStep(message, done, "timestamp");
    if message.timestamp.Some? {
      result := result["timestamp" := Timestamp(message.timestamp.value)];
    }
    done := done + {"timestamp"};
    FixedFieldsAmongStep(message, done, "procid");
    if message.procid.Some? {
      var value := match message.procid.value
        case PID(pid) => Integer(pid)
        case Name(name) => Bytes(name);
      result := result["procid" := value];
    }
  }

  /** The inner loop of `message_to_value`: one string field per param,
      inserted in order. */
  method ParamsObject(params: seq<(string, string)>) returns (sdata: map<string, Value>)
    ensures sdata == ParamsMap(params)
  {
    sdata := map[];
    for j := 0 to |params|
      invariant sdata == ParamsMap(params[..j])
    {
      var (name, value) := params[j];
      assert params[..j + 1][..j] == params[..j];
      sdata := sdata[name := Bytes(value)];
    }
    assert params[..|params|] == params;
  }

  /** The date parts of a timestamp that carries no year. */
  datatype IncompleteDate = IncompleteDate(month: nat, day: nat, hour: nat, minute: nat, second: nat)

  /** `resolve_year`, with the current UTC year and month passed in: a
      December message read in January belongs to the previous year. */
  function ResolveYear(date: IncompleteDate, nowYear: int, nowMonth: nat): (year: int)
    ensures year == nowYear - 1 <==> nowMonth == 1 && date.month == 12
    ensures year == nowYear <==> !(nowMonth == 1 && date.month == 12)
  {
    if nowMonth == 1 && date.month == 12 then nowYear - 1 else nowYear
  }

  /** `inner_kind`: the declared kind of each fixed field; every field but
      `message` may also be null. */
  function InnerKind(): map<string, Kind>
  {
    map[
      "message" := ScalarKind(BytesKind),
      "hostname" := OrNull(ScalarKind(BytesKind)),
      "severity" := OrNull(ScalarKind(BytesKind)),
      "facility" := OrNull(ScalarKind(BytesKind)),
      "appname" := OrNull(ScalarKind(BytesKind)),
      "msgid" := OrNull(ScalarKind(BytesKind)),
      "timestamp" := OrNull(ScalarKind(TimestampKind)),
      "procid" := OrNull(Shape({BytesKind, IntegerKind}, None, None)),
      "version" := OrNull(ScalarKind(IntegerKind))
    ]
  }

  /** The declared kinds, key by key. */
  lemma InnerKindAt()
    ensures "message" in InnerKind() && InnerKind()["message"] == ScalarKind(BytesKind)
    ensures "hostname" in InnerKind() && InnerKind()["hostname"] == OrNull(ScalarKind(BytesKind))
    ensures "severity" in InnerKind() && InnerKind()["severity"] == OrNull(ScalarKind(BytesKind))
    ensures "facility" in InnerKind() && InnerKind()["facility"] == OrNull(ScalarKind(BytesKind))
    ensures "appname" in InnerKind() && InnerKind()["appname"] == OrNull(ScalarKind(BytesKind))
    ensures "msgid" in InnerKind() && InnerKind()["msgid"] == OrNull(ScalarKind(BytesKind))
    ensures "timestamp" in InnerKind() && InnerKind()["timestamp"] == OrNull(ScalarKind(TimestampKind))
    ensures "procid" in InnerKind() && InnerKind()["procid"] == OrNull(Shape({BytesKind, IntegerKind}, None, None))
    ensures "version" in InnerKind() && InnerKind()["version"] == OrNull(ScalarKind(IntegerKind))
  {
    FixedKeysDistinct();
  }

  /** The declared fields are exactly the fixed keys, and every one of them
      but `message` admits null. */
  lemma InnerKindShape()
    ensures InnerKind().Keys == FixedKeys()
    ensures forall k :: k in InnerKind() && k != "message" ==> InnerKind()[k].Shape? && NullKind in InnerKind()[k].scalars
  {
    InnerKindAt();
  }

  /** `ParseSyslogFn::type_def`: a fallible object of the inner kind,
      whatever the argument's type. */
  function ParseSyslogTypeDef(argument: TypeDef): (td: TypeDef)
    ensures td.fallible
    ensures td.kind == ObjectKind(InnerKind())
  {
    TypeDef(ObjectKind(InnerKind()), true)
  }

  /** Each fixed field has the kind `inner_kind` declares for it. */
  lemma FixedFieldsConform(m: Message)
    ensures forall k :: k in FixedFields(m) ==> k in InnerKind() && Conforms(FixedFields(m)[k], InnerKind()[k])
  {
    var r := FixedFields(m);
    FixedFieldAt(m);
    InnerKindAt();
    forall k | k in r
      ensures k in InnerKind() && Conforms(r[k], InnerKind()[k])
    {
      assert r[k] == FixedField(m, k).value;
      if k == "message" || k == "hostname" || k == "severity" || k == "facility" || k == "appname" || k == "msgid" {
      } else if k == "timestamp" {
      } else if k == "procid" {
      } else {
        assert k == "version";
      }
    }
  }

  /** Every record built from a message whose SD-IDs do not collide with the
      fixed keys has the declared type. */
  lemma MessageConforms(m: Message)
    requires NoShadowing(m)
    ensures Conforms(Object(MessageFields(m)), ParseSyslogTypeDef(TypeDef(Any, false)).kind)
  {
    var fields := MessageFields(m);
    var kinds := InnerKind();
    FixedFieldsKept(m);
    FixedFieldsConform(m);
    forall f | f in fields && f in kinds
      ensures Conforms(fields[f], kinds[f])
    {
      assert f in FixedFields(m);
    }
  }

  /** The declared type names the fixed keys only: the record has no key
      beyond them exactly when every SD-ID of the message is a fixed key.
      Any other SD-ID is a key the declared type leaves undeclared. */
  lemma UndeclaredStructuredKeys(m: Message)
    ensures MessageFields(m).Keys <= InnerKind().Keys <==>
      forall i :: 0 <= i < |m.structuredData| ==> m.structuredData[i].id in FixedKeys()
  {
    InnerKindShape();
    WithStructuredDataSpec(FixedFields(m), m.structuredData);
    if MessageFields(m).Keys <= InnerKind().Keys {
      forall i | 0 <= i < |m.structuredData|
        ensures m.structuredData[i].id in FixedKeys()
      {
        assert m.structuredData[i].id in MessageFields(m);
      }
    }
  }

  /** A message without structured data has only declared keys, each value
      of its declared kind, and `message` present: it conforms to the
      declared type even read as a closed object type. */
  lemma PlainMessageConformsClosed(m: Message)
    requires m.structuredData == []
    ensures "message" in MessageFields(m)
    ensures MessageFields(m).Keys <= InnerKind().Keys
    ensures forall k :: k in MessageFields(m) ==> Conforms(MessageFields(m)[k], InnerKind()[k])
  {
    UndeclaredStructuredKeys(m);
    MessageFieldsKeys(m);
    MessageConforms(m);
  }

  /** An SD-ID equal to a fixed key replaces that field: a message whose
      only element is `[message]` yields an empty object under `message`,
      which is not the declared bytes. */
  lemma ShadowingLeavesDeclaredType()
    ensures
      var m := Message(None, None, None, None, None, None, None, RFC3164, [StructuredElement("message", [])], "hi");
      MessageFields(m)["message"] == Object(map[]) &&
      !Conforms(Object(MessageFields(m)), ParseSyslogTypeDef(TypeDef(Any, false)).kind)
  {
    var m := Message(None, None, None, None, None, None, None, RFC3164, [StructuredElement("message", [])], "hi");
    var els := m.structuredData;
    assert els[..0] == [];
    assert WithStructuredData(FixedFields(m), els) == FixedFields(m)["message" := Object(ParamsMap([]))];
    var kinds := InnerKind();
    assert "message" in MessageFields(m) && "message" in kinds;
    assert !Conforms(MessageFields(m)["message"], kinds["message"]);
  }
}
