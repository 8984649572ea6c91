/** From a submitted text, over its PDUs and their arrival in any order, back to one text. */
module EndToEnd {
  import opened Wrappers
  import opened Bits
  import opened Address
  import opened Pdu
  import opened PduDecode
  import opened PduRoundTrip
  import opened Sms
  import opened Reassembly
  import C = Combine
  import N = Conservation

  // ---------------------------------------------------------------- arrival order and storage order

  /** Stored messages seen as arrivals. */
  function AsArrivals(group: seq<IncomingSms>): (w: seq<Arrival>)
    ensures |w| == |group| && forall i :: 0 <= i < |w| ==> w[i] == Arrival(group[i], 0)
  {
    seq(|group|, i requires 0 <= i < |group| => Arrival(group[i], 0))
  }

  lemma {:induction false} StoredParts(group: seq<IncomingSms>)
    ensures C.EntryFrom(group).parts == PartsOf(AsArrivals(group))
  {
    if group == [] {
      assert AsArrivals(group) == [];
    } else {
      var rest, last := group[..|group| - 1], group[|group| - 1];
      assert group == rest + [last];
      assert AsArrivals(group) == AsArrivals(rest) + [Arrival(last, 0)];
      StoredParts(rest);
      PartsOfSnoc(AsArrivals(rest), Arrival(last, 0));
      C.EntryGrows(rest, last);
      hide C.EntryFrom, PartsOf, AsArrivals;
    }
  }

  /** A message all of whose parts are stored, in any order, is combined to the text of the parts in the
      order of their numbers. */
  lemma StoredMessageCombined(raw: seq<IncomingSms>, key: Bytes, texts: seq<Bytes>)
    requires 2 <= |texts| <= 255 && |C.GroupIn(raw, key)| == |texts|
    requires Arranges(AsArrivals(C.GroupIn(raw, key)), texts)
    ensures |C.Output(raw, key)| == 1 && C.Output(raw, key)[0].decoded.text == Joined(texts)
  {
    var group := C.GroupIn(raw, key);
    var e := C.EntryFrom(group);
    hide C.GroupIn, C.EntryFrom, Joined, CombinedFrom, Arranges, AsArrivals, PartsOf, C.AllIndices, C.StatusAt;
    StoredParts(group);
    PartsOfArranged(AsArrivals(group), texts);
    N.FirstOfEntry(group);
    assert IsPartOf(AsArrivals(group)[0].sms, texts) by { FirstPart(AsArrivals(group), texts); }
    WholeText(e.parts, texts);
  }

  lemma FirstPart(w: seq<Arrival>, texts: seq<Bytes>)
    requires Arranges(w, texts) && w != []
    ensures IsPartOf(w[0].sms, texts)
  {
  }

  /** Whatever the order of arrival and whatever the order in storage: collecting the parts of a message
      as they arrive and combining them from storage give the same text. */
  lemma IncrementalIsBatch(events: seq<Event>, raw: seq<IncomingSms>, g: Group, texts: seq<Bytes>)
    requires 2 <= |texts| <= 255
    requires Arranges(ArrivalsOf(events, g), texts) && |ArrivalsOf(events, g)| == |texts| && NoneExpires(events, g)
    requires |C.GroupIn(raw, GroupKey(g))| == |texts| && Arranges(AsArrivals(C.GroupIn(raw, GroupKey(g))), texts)
    ensures |NotesOf(events, g)| == 1 && |C.Output(raw, GroupKey(g))| == 1
    ensures NotesOf(events, g)[0].decoded.text == C.Output(raw, GroupKey(g))[0].decoded.text == Joined(texts)
  {
    ReassembledOnce(events, g, texts);
    hide *;
    StoredMessageCombined(raw, GroupKey(g), texts);
  }

  // ---------------------------------------------------------------- end to end

  function PartTotal(text: Bytes): nat { (|text| + 152) / 153 }

  /** The slices that a text is cut into. */
  function Slices(text: Bytes): (texts: seq<Bytes>)
    ensures |texts| == PartTotal(text)
    ensures forall i :: 0 <= i < |texts| ==> PartStart(DCS_GSM7, i) <= |text| && texts[i] == PartText(text, DCS_GSM7, i)
  {
    seq(PartTotal(text), i requires 0 <= i < PartTotal(text) => PartText(text, DCS_GSM7, i))
  }

  lemma SliceAt(text: Bytes, k: nat)
    requires k < PartTotal(text)
    ensures 153 * k < |text| && PartText(text, DCS_GSM7, k) == text[153 * k..Min(153 * k + 153, |text|)]
    ensures PartText(text, DCS_GSM7, k) + text[Min(153 * k + 153, |text|)..] == text[153 * k..]
    ensures k + 1 < PartTotal(text) ==> 153 * k + 153 < |text|
    ensures k + 1 == PartTotal(text) ==> Min(153 * k + 153, |text|) == |text|
  {
    assert PartStart(DCS_GSM7, k) == 153 * k && PartStart(DCS_GSM7, k + 1) == 153 * k + 153;
  }

  /** The slices make up the text. */
  lemma {:induction false} SlicesJoin(text: Bytes, k: nat)
    requires k < PartTotal(text)
    ensures 153 * k <= |text| && Joined(Slices(text)[k..]) == text[153 * k..]
    decreases PartTotal(text) - k
  {
    SliceAt(text, k);
    JoinedFrom(Slices(text), k);
    if k + 1 < PartTotal(text) {
      SlicesJoin(text, k + 1);
    }
    hide Joined, PartText, PartTotal;
  }

  lemma SlicesJoinAll(text: Bytes)
    requires text != []
    ensures Joined(Slices(text)) == text
  {
    hide Joined, Slices, PartText;
    SlicesJoin(text, 0);
    assert Slices(text)[0..] == Slices(text) && text[0..] == text;
  }

  /** The group under which the parts of a submitted message arrive. */
  function GroupBack(e: Envelope): Group { Group(HeadBack(e).number, e.reference) }

  /** What arrived of the message is its PDUs, decoded, each once, in the given order. */
  ghost predicate AllArrive(w: seq<Arrival>, pdus: seq<Bytes>, order: seq<nat>) {
    && |w| == |order| == |pdus|
    && (forall i :: 0 <= i < |order| ==> order[i] < |pdus| && Decoding(BytesOf(pdus[order[i]])) == Ok(w[i].sms.decoded))
    && (forall i, j :: 0 <= i < j < |order| ==> order[i] != order[j])
  }

  lemma DecodedPart(e: Envelope, text: Bytes, k: nat, sms: IncomingSms)
    requires AddressesFit(e) && e.number != [] && AllPlain(text) && 160 < |text| <= 39015 && k < PartTotal(text)
    requires Submitted(e, text).Ok? && k < |Submitted(e, text).value|
    requires Decoding(BytesOf(Submitted(e, text).value[k])) == Ok(sms.decoded)
    ensures IsPartOf(sms, Slices(text)) && sms.decoded.concat.concatSeq == k + 1
  {
    hide Submitted, Decoding, BytesOf, AddressesFit, AllPlain, PartText, HeadBack;
    var m := PlainPartComesBack(e, text, k);
    assert m == sms.decoded;
  }

  lemma ArrivedArranges(e: Envelope, text: Bytes, w: seq<Arrival>, order: seq<nat>)
    requires AddressesFit(e) && e.number != [] && AllPlain(text) && 160 < |text| <= 39015
    requires Submitted(e, text).Ok? && |Submitted(e, text).value| == PartTotal(text)
    requires AllArrive(w, Submitted(e, text).value, order)
    ensures Arranges(w, Slices(text))
  {
    hide Submitted, Decoding, BytesOf, AddressesFit, AllPlain, IsPartOf, Slices, PartTotal;
    forall i | 0 <= i < |w| ensures IsPartOf(w[i].sms, Slices(text)) && SeqOf(w[i]) == order[i] + 1 {
      DecodedPart(e, text, order[i], w[i].sms);
    }
  }

  lemma {:induction false} NotesBelong(events: seq<Event>, g: Group)
    ensures forall i :: 0 <= i < |NotesOf(events, g)| ==> GroupOf(NotesOf(events, g)[i]) == g
  {
    if events != [] {
      hide Step, Reassembly.After;
      NotesBelong(events[..|events| - 1], g);
    }
  }

  lemma SenderIsNumber(e: Envelope)
    requires e.number != [] && AllDigits(AddressValue(e.number)) && NumberingOf(e.number) != Alphanumeric
    ensures GroupBack(e).sender == e.number
  {
    NumberBackExactly(e.number);
    hide NumberBack, AllDigits, NumberingOf, AddressValue;
  }

  /** End to end: plain text of 161 to 39015 octets is submitted as several PDUs; when they have arrived,
      each once, in any order and mixed with anything else, exactly one message has been notified, with the
      original text; and if the destination is made of digits, with or without a leading +, with that number. */
  lemma TextComesThrough(e: Envelope, text: Bytes, events: seq<Event>, order: seq<nat>)
    requires AddressesFit(e) && e.number != [] && AllPlain(text) && 160 < |text| <= 39015
    requires Submitted(e, text).Ok? && AllArrive(ArrivalsOf(events, GroupBack(e)), Submitted(e, text).value, order)
    requires NoneExpires(events, GroupBack(e))
    ensures |NotesOf(events, GroupBack(e))| == 1 && NotesOf(events, GroupBack(e))[0].decoded.text == text
    ensures AllDigits(AddressValue(e.number)) && NumberingOf(e.number) != Alphanumeric ==>
              NotesOf(events, GroupBack(e))[0].decoded.number == e.number
  {
    Totals(e, text);
    NotesBelong(events, GroupBack(e));
    if AllDigits(AddressValue(e.number)) && NumberingOf(e.number) != Alphanumeric { SenderIsNumber(e); }
    hide NotesOf, ArrivalsOf, Submitted, AllArrive, NoneExpires, AllPlain, AddressesFit, AllDigits, NumberingOf, AddressValue, HeadBack,
         Slices, Joined, Progress, Arranges;
    var w := ArrivalsOf(events, GroupBack(e));
    ArrivedArranges(e, text, w, order);
    ArrivedCount(w, Submitted(e, text).value, order);
    SlicesJoinAll(text);
    ReassembledOnce(events, GroupBack(e), Slices(text));
    ProgressDone(events, GroupBack(e), Slices(text));
  }

  lemma ArrivedCount(w: seq<Arrival>, pdus: seq<Bytes>, order: seq<nat>)
    requires AllArrive(w, pdus, order)
    ensures |w| == |pdus|
  {
  }

  lemma ProgressDone(events: seq<Event>, g: Group, texts: seq<Bytes>)
    requires Progress(events, g, texts) && |ArrivalsOf(events, g)| == |texts|
    ensures |NotesOf(events, g)| == 1 && NotesOf(events, g)[0].decoded.text == Joined(texts)
  {
    hide NotesOf, ArrivalsOf, Window, Joined;
  }

  lemma Totals(e: Envelope, text: Bytes)
    requires AddressesFit(e) && e.number != [] && AllPlain(text) && 160 < |text| <= 39015
    ensures Submitted(e, text).Ok? && |Submitted(e, text).value| == PartTotal(text) && 2 <= PartTotal(text) <= 255
    ensures |Slices(text)| == PartTotal(text)
  {
    hide Submitted, AddressesFit, AllPlain, Decoding, BytesOf, HeadBack, PartText;
    var m := PlainPartComesBack(e, text, 0);
  }
}
