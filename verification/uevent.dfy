/** The field scan of `uevent_event` (aidl/src/Dock.cpp:133-162): a kernel
    uevent message is a run of NUL-terminated `KEY=value` fields, and the scan
    reports USB partner events and USB type-C events. The reports are the log
    lines the handler writes, which are its only effect. */
module Uevent {
  import opened CText

  /** The receive buffer size (aidl/src/Dock.h:29). */
  const UEVENT_MSG_LEN: int := 2048

  /** What the handler logs for one field. */
  datatype Detection =
    | PartnerEvent(field: string)  // "USB partner event detected"
    | TypecEvent(field: string)    // "Other USB event detected"

  /** Does `std::regex_match` accept the whole field for the pattern
      `(add)(.*)(-partner)`? In ECMAScript syntax `.` matches any character
      except the line terminators `\n` and `\r`. */
  predicate IsPartnerField(field: string): (r: bool)
    ensures r ==> |field| >= 11 && field == "add" + field[3..|field| - 8] + "-partner"
  {
    assert |field| >= 11 ==> field == field[..3] + field[3..|field| - 8] + field[|field| - 8..];
    |field| >= 11 && HasPrefix(field, "add") && HasSuffix(field, "-partner") &&
    '\n' !in field && '\r' !in field
  }

  /** `strncmp(cp, "DEVTYPE=typec_", strlen("DEVTYPE=typec_")) == 0`. */
  /** A type-C field is never a partner field, so the order of the two tests
      does not change what is reported for it. */
  predicate IsTypecField(field: string): (r: bool)
    ensures r ==> |field| >= 14 && field == "DEVTYPE=typec_" + field[14..] && !IsPartnerField(field)
  {
    TypecPrefix(field);
    HasPrefix(field, "DEVTYPE=typec_")
  }

  lemma TypecPrefix(field: string)
    ensures |field| >= 14 && field[..14] == "DEVTYPE=typec_" ==>
            field == field[..14] + field[14..] && field[..3] != "add"
  {
    if |field| >= 14 && field[..14] == "DEVTYPE=typec_" {
      assert field[0] == field[..14][0] == 'D';
      assert field[..3][0] == 'D';
    }
  }

  /** The scan as a function of the fields in message order: it stops at the
      first empty field, reports a partner field and goes on, and reports a
      type-C field that is not a partner field and stops there. */
  function ScanFields(fields: seq<string>): seq<Detection>
    decreases |fields|
  {
    if fields == [] || fields[0] == [] then []
    else if IsPartnerField(fields[0]) then [PartnerEvent(fields[0])] + ScanFields(fields[1..])
    else if IsTypecField(fields[0]) then [TypecEvent(fields[0])]
    else ScanFields(fields[1..])
  }

  /** The scan reports at most one event per field, and each report names a
      non-empty field of the message. */
  lemma {:induction false} ScanFieldsFromFields(fields: seq<string>)
    ensures |ScanFields(fields)| <= |fields|
    ensures forall i :: 0 <= i < |ScanFields(fields)| ==>
              ScanFields(fields)[i].field != [] && ScanFields(fields)[i].field in fields
    decreases |fields|
  {
    if fields != [] && fields[0] != [] {
      ScanFieldsFromFields(fields[1..]);
      var rest := ScanFields(fields[1..]);
      assert forall i :: 0 <= i < |rest| ==> rest[i].field in fields[1..];
      assert forall x :: x in fields[1..] ==> x in fields;
    }
  }

  /** What the scan reports from index `cp` of the message on; nothing once
      `cp` is past the NUL that ends the message. */
  ghost function Pending(received: string, cp: nat): seq<Detection> {
    if cp <= |received| then ScanFields(Split(received[cp..], NUL)) else []
  }

  /** One field of the scan: the field at `start` runs up to the next NUL or
      the end of the message, and the scan goes on after it unless the field
      stops it. */
  lemma ScanAtField(received: string, start: nat, end: nat)
    requires start <= end <= |received| && NUL !in received[start..end]
    requires end < |received| ==> received[end] == NUL
    ensures var field := received[start..end];
            Pending(received, start) ==
              if field == [] then []
              else if IsPartnerField(field) then [PartnerEvent(field)] + Pending(received, end + 1)
              else if IsTypecField(field) then [TypecEvent(field)]
              else Pending(received, end + 1)
  {
    var rest := received[start..];
    var field := received[start..end];
    assert rest[..end - start] == field;
    SplitAt(rest, NUL, end - start);
    var fields := Split(rest, NUL);
    assert fields[0] == field;
    if end < |received| {
      assert rest[end - start + 1..] == received[end + 1..];
      assert fields[1..] == Split(received[end + 1..], NUL);
    } else {
      assert fields[1..] == [];
    }
    assert Pending(received, end + 1) == ScanFields(fields[1..]);
    assert Pending(received, start) == ScanFields(fields);
  }

  /** `while (*cp++) {}` without the final step: the index of the NUL that
      ends the field at `start`, and the field, which is the C string the two
      tests read at `start`. */
  method FieldEnd(msg: array<char>, start: int, n: int, ghost received: string) returns (end: int, field: string)
    requires 0 <= start <= n < msg.Length && msg[..n] == received && msg[n] == NUL
    ensures start <= end <= n && (end < n ==> received[end] == NUL)
    ensures NUL !in received[start..end] && field == received[start..end]
    ensures msg[start] != NUL ==> field != []
  {
    assert forall i :: 0 <= i < n ==> msg[i] == received[i];
    end := start;
    while msg[end] != NUL
      invariant start <= end <= n
      invariant NUL !in received[start..end]
      decreases n - end
    {
      assert received[start..end + 1] == received[start..end] + [received[end]];
      end := end + 1;
    }
    field := msg[start..end];
    assert forall i :: 0 <= i < end - start ==> field[i] == received[start..end][i];
  }

  /** The handler (aidl/src/Dock.cpp:133-162) after `uevent_kernel_multicast_recv`
      returned `n` and wrote `received` into the buffer. It discards the
      message when nothing was received or the buffer may have overflowed;
      otherwise it reports, in order, what the scan finds in the NUL-separated
      fields of the message. */
  method UeventEvent(n: int, received: seq<char>) returns (events: seq<Detection>)
    requires n > 0 ==> |received| == n
    ensures events == if n <= 0 || n >= UEVENT_MSG_LEN then [] else ScanFields(Split(received, NUL))
  {
    if n <= 0 {
      return [];
    }
    if n >= UEVENT_MSG_LEN {
      // the message may not have fit the buffer
      return [];
    }
    // The buffer past the received bytes holds whatever it held before.
    var msg := new char[UEVENT_MSG_LEN + 2](i => if 0 <= i < n then received[i] else '?');
    msg[n] := NUL;
    msg[n + 1] := NUL;
    assert msg[..n] == received;
    events := ScanBuffer(msg, n, received);
    assert received[0..] == received;
  }

  /** The loop of the handler over the fields of `msg[..n]`, which the two
      NULs at `n` and `n + 1` terminate. */
  method ScanBuffer(msg: array<char>, n: int, ghost received: string) returns (events: seq<Detection>)
    requires 0 <= n && n + 1 < msg.Length && msg[..n] == received && msg[n] == NUL && msg[n + 1] == NUL
    ensures events == Pending(received, 0)
  {
    var cp := 0;
    events := [];
    while msg[cp] != NUL
      invariant 0 <= cp <= n + 1
      invariant events + Pending(received, cp) == Pending(received, 0)
      decreases n + 1 - cp
    {
      // Both tests read the field from `cp` to the next NUL, and
      // `while (*cp++)` then steps past that NUL.
      var end, field := FieldEnd(msg, cp, n, received);
      if IsPartnerField(field) {
        PartnerStep(received, cp, end, field, events, Pending(received, 0));
        events := events + [PartnerEvent(field)];
      } else if IsTypecField(field) {
        TypecStep(received, cp, end, field, events, Pending(received, 0));
        events := events + [TypecEvent(field)];
        return;  // `break`: nothing follows the loop
      } else {
        OtherStep(received, cp, end, field);
      }
      cp := end + 1;
    }
    ScanEnd(msg, n, received, cp);
  }

  /** A partner field is reported, and the scan goes on after it. */
  lemma PartnerStep(received: string, start: nat, end: nat, field: string, events: seq<Detection>, total: seq<Detection>)
    requires start <= end <= |received| && NUL !in received[start..end]
    requires end < |received| ==> received[end] == NUL
    requires field == received[start..end] && field != [] && IsPartnerField(field)
    requires events + Pending(received, start) == total
    ensures events + [PartnerEvent(field)] + Pending(received, end + 1) == total
  {
    ScanAtField(received, start, end);
  }

  /** A type-C field that is not a partner field is reported, and ends the scan. */
  lemma TypecStep(received: string, start: nat, end: nat, field: string, events: seq<Detection>, total: seq<Detection>)
    requires start <= end <= |received| && NUL !in received[start..end]
    requires end < |received| ==> received[end] == NUL
    requires field == received[start..end] && field != [] && !IsPartnerField(field) && IsTypecField(field)
    requires events + Pending(received, start) == total
    ensures events + [TypecEvent(field)] == total
  {
    ScanAtField(received, start, end);
  }

  /** Any other non-empty field is passed over. */
  lemma OtherStep(received: string, start: nat, end: nat, field: string)
    requires start <= end <= |received| && NUL !in received[start..end]
    requires end < |received| ==> received[end] == NUL
    requires field == received[start..end] && field != [] && !IsPartnerField(field) && !IsTypecField(field)
    ensures Pending(received, end + 1) == Pending(received, start)
  {
    ScanAtField(received, start, end);
  }

  /** The scan has nothing left to report once it stands on a NUL. */
  lemma ScanEnd(msg: array<char>, n: int, received: string, cp: int)
    requires 0 <= n && 0 <= cp <= n + 1 < msg.Length && msg[..n] == received && msg[cp] == NUL
    ensures Pending(received, cp) == []
  {
    assert |received| == n;
    if cp < n {
      assert received[cp] == msg[cp];
      ScanAtField(received, cp, cp);
    } else if cp == n {
      ScanAtField(received, cp, cp);
    }
  }

  // ---------------------------------------------------------------------------
  // What the scan reports
  // ---------------------------------------------------------------------------

  /** A field that ends the scan: the empty field, or a type-C field that is
      not also a partner field. */
  predicate EndsScan(field: string) {
    field == [] || (!IsPartnerField(field) && IsTypecField(field))
  }

  /** The partner fields of `fields`, in order. */
  function Partners(fields: seq<string>): (r: seq<Detection>)
    ensures forall i :: 0 <= i < |r| ==> r[i].PartnerEvent? && IsPartnerField(r[i].field)
    decreases |fields|
  {
    if fields == [] then []
    else PartnerReport(fields[0]) + Partners(fields[1..])
  }

  /** The scan reports every partner field before the first field that ends
      the scan, in order, and then that field if it is a type-C field: the
      scan stops at the first empty field or right after the first type-C
      field, and the partner test comes first. */
  lemma {:induction false} ScanFieldsStops(fields: seq<string>, k: nat)
    requires k <= |fields|
    requires forall i :: 0 <= i < k ==> !EndsScan(fields[i])
    requires k < |fields| ==> EndsScan(fields[k])
    ensures ScanFields(fields) == Partners(fields[..k]) + StopReport(fields, k)
    decreases k
  {
    if k == 0 {
      assert fields[..0] == [];
    } else {
      var head := PartnerReport(fields[0]);
      ScanPastField(fields);
      ScanFieldsStops(fields[1..], k - 1);
      assert fields[1..][..k - 1] == fields[..k][1..];
      assert StopReport(fields[1..], k - 1) == StopReport(fields, k);
      assert Partners(fields[..k]) == head + Partners(fields[..k][1..]);
    }
  }

  /** What a field that does not end the scan reports. */
  function PartnerReport(field: string): seq<Detection> {
    if IsPartnerField(field) then [PartnerEvent(field)] else []
  }

  /** What the field at `k` reports when it ends the scan. */
  function StopReport(fields: seq<string>, k: nat): seq<Detection> {
    if k < |fields| && fields[k] != [] then [TypecEvent(fields[k])] else []
  }

  lemma ScanPastField(fields: seq<string>)
    requires fields != [] && !EndsScan(fields[0])
    ensures ScanFields(fields) == PartnerReport(fields[0]) + ScanFields(fields[1..])
  {
  }

  /** Report `i` of `r` names a field of the kind it says, and a type-C
      report is the last one. */
  predicate ReportOk(r: seq<Detection>, i: int)
    requires 0 <= i < |r|
  {
    (r[i].PartnerEvent? ==> IsPartnerField(r[i].field)) &&
    (r[i].TypecEvent? ==> IsTypecField(r[i].field) && !IsPartnerField(r[i].field) && i == |r| - 1)
  }

  /** Every report but the last is a partner event; a type-C report can only
      come last, and each report names a field of the kind it says. */
  lemma {:induction false} ScanFieldsReports(fields: seq<string>)
    ensures forall i :: 0 <= i < |ScanFields(fields)| ==> ReportOk(ScanFields(fields), i)
    decreases |fields|
  {
    if fields != [] && fields[0] != [] {
      var f := fields[0];
      var rest := ScanFields(fields[1..]);
      ScanFieldsReports(fields[1..]);
      if IsPartnerField(f) {
        var r := [PartnerEvent(f)] + rest;
        assert ScanFields(fields) == r;
        forall i | 0 <= i < |r|
          ensures ReportOk(r, i)
        {
          if i > 0 {
            assert ReportOk(rest, i - 1);
            assert r[i] == rest[i - 1];
          }
        }
      } else if IsTypecField(f) {
        assert ScanFields(fields) == [TypecEvent(f)];
      }
    }
  }

  /** A message whose first field is empty reports nothing, whatever follows. */
  lemma EmptyFirstField(rest: string)
    ensures ScanFields(Split([NUL] + rest, NUL)) == []
  {
    var s := [NUL] + rest;
    assert s[0] == NUL && s[1..] == rest;
  }

  /** The predicate is the regular expression `(add)(.*)(-partner)` matched
      against the whole field: `add`, then any run of characters other than
      line terminators, then `-partner`. */
  lemma PartnerFieldShape(field: string)
    ensures IsPartnerField(field) <==>
            exists mid: string :: field == "add" + mid + "-partner" && '\n' !in mid && '\r' !in mid
  {
    if IsPartnerField(field) {
      PartnerFieldSplits(field);
    }
    if exists mid: string :: field == "add" + mid + "-partner" && '\n' !in mid && '\r' !in mid {
      var mid: string :| field == "add" + mid + "-partner" && '\n' !in mid && '\r' !in mid;
      PartnerFieldJoins(mid);
    }
  }

  lemma PartnerFieldSplits(field: string)
    requires IsPartnerField(field)
    ensures var mid := field[3..|field| - 8];
            field == "add" + mid + "-partner" && '\n' !in mid && '\r' !in mid
  {
    var mid := field[3..|field| - 8];
    assert field == field[..3] + mid + field[|field| - 8..];
    assert forall c :: c in mid ==> c in field;
  }

  lemma PartnerFieldJoins(mid: string)
    requires '\n' !in mid && '\r' !in mid
    ensures IsPartnerField("add" + mid + "-partner")
  {
    var field := "add" + mid + "-partner";
    assert field[..3] == "add";
    assert field[|field| - 8..] == "-partner";
    assert forall i :: 0 <= i < |field| ==> field[i] != '\n' && field[i] != '\r' by {
      forall i | 0 <= i < |field|
        ensures field[i] != '\n' && field[i] != '\r'
      {
        if 3 <= i < 3 + |mid| {
          assert field[i] == mid[i - 3];
        }
      }
    }
  }
}
