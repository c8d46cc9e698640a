/** Worked decodes with concrete documents: the car list with malformed
    entries used by the library's own tests, and a raw-string enum. */
module MarshalExamples {
  import opened Results
  import opened Json
  import opened MarshalErrors
  import opened KeyPath
  import opened ValueTypes
  import opened MarshaledObject
  import opened Unmarshaling

  datatype Car = Car(make: string, model: string)

  /** The test type's `init(object:)`: both fields are required strings. */
  function CarInit(m: map<string, Raw>): (res: Result<Car, MarshalError>)
    ensures res.Ok? <==> Value(m, "make", DecodeString).Ok? && Value(m, "model", DecodeString).Ok?
    ensures res.Ok? ==> res.value == Car(Value(m, "make", DecodeString).value, Value(m, "model", DecodeString).value)
    ensures Value(m, "make", DecodeString).Err? ==> res == Err(Value(m, "make", DecodeString).error)
  {
    var make :- Value(m, "make", DecodeString);
    var model :- Value(m, "model", DecodeString);
    Ok(Car(make, model))
  }

  function FullCar(make: string, model: string): Raw {
    Obj(map["make" := Str(make), "model" := Str(model)])
  }

  /** A car whose required `model` is missing. */
  function BrokenCar(make: string): Raw {
    Obj(map["make" := Str(make)])
  }

  /** A test fixture entry: a complete car, or one whose model is missing.
      The two constructors deliberately do not share a field name. */
  datatype Entry = Complete(make: string, model: string) | Incomplete(makeOnly: string)

  function Render(e: Entry): Raw {
    match e
    case Complete(make, model) => FullCar(make, model)
    case Incomplete(make) => BrokenCar(make)
  }

  function RenderAll(es: seq<Entry>): (rs: seq<Raw>)
    ensures |rs| == |es|
    ensures forall i :: 0 <= i < |es| ==> rs[i] == Render(es[i])
  {
    if |es| == 0 then [] else [Render(es[0])] + RenderAll(es[1..])
  }

  /** What a single entry is expected to decode to. */
  function Expected(e: Entry): Option<Car> {
    match e
    case Complete(make, model) => Some(Car(make, model))
    case Incomplete(_) => None
  }

  function ExpectedAll(es: seq<Entry>): (os: seq<Option<Car>>)
    ensures |os| == |es|
    ensures forall i :: 0 <= i < |es| ==> os[i] == Expected(es[i])
  {
    if |es| == 0 then [] else [Expected(es[0])] + ExpectedAll(es[1..])
  }

  /** The cars of the complete entries, in order. */
  function CompleteCars(es: seq<Entry>): seq<Car> {
    if |es| == 0 then []
    else
      var first := match es[0] case Complete(make, model) => [Car(make, model)] case Incomplete(_) => [];
      first + CompleteCars(es[1..])
  }

  /** What one entry decodes to: its car, or the missing model key. */
  lemma EntryDecodes(e: Entry)
    ensures ObjectDecoder(CarInit)(Render(e)) ==
      (match Expected(e) case Some(c) => Ok(c) case None => Err(KeyNotFound("model")))
  {
    var m := Render(e).fields;
    AnySingleSegment(m, "make");
    AnySingleSegment(m, "model");
  }

  /** Any fixture decodes, per element, to its expected optionals. */
  lemma FixtureOptionals(es: seq<Entry>)
    ensures DecodeOptionals(ObjectDecoder(CarInit), RenderAll(es)) == ExpectedAll(es)
  {
    var dec := ObjectDecoder(CarInit);
    var rs := RenderAll(es);
    var got := DecodeOptionals(dec, rs);
    forall i | 0 <= i < |es| ensures got[i] == ExpectedAll(es)[i] {
      EntryDecodes(es[i]);
    }
  }

  /** The present values of the expected optionals are the complete cars. */
  lemma {:induction false} ExpectedSomes(es: seq<Entry>)
    ensures Somes(ExpectedAll(es)) == CompleteCars(es)
  {
    if |es| > 0 {
      ExpectedSomes(es[1..]);
      assert ExpectedAll(es)[1..] == ExpectedAll(es[1..]);
    }
  }

  /** Fail-fast decode of a fixture fails exactly when it holds an
      incomplete entry, and then with the missing model key. */
  lemma FixtureFailFast(es: seq<Entry>)
    ensures DecodeEach(ObjectDecoder(CarInit), RenderAll(es)).Err? <==> exists i :: 0 <= i < |es| && es[i].Incomplete?
    ensures DecodeEach(ObjectDecoder(CarInit), RenderAll(es)).Err? ==>
      DecodeEach(ObjectDecoder(CarInit), RenderAll(es)) == Err(KeyNotFound("model"))
  {
    if DecodeEach(ObjectDecoder(CarInit), RenderAll(es)).Err? {
      var i := FailureIsBrokenEntry(es);
    }
    if exists i :: 0 <= i < |es| && es[i].Incomplete? {
      var i :| 0 <= i < |es| && es[i].Incomplete?;
      BrokenEntryFails(es, i);
    }
  }

  /** A fail-fast failure comes from an incomplete entry's missing model. */
  lemma FailureIsBrokenEntry(es: seq<Entry>) returns (i: nat)
    requires DecodeEach(ObjectDecoder(CarInit), RenderAll(es)).Err?
    ensures i < |es| && es[i].Incomplete?
    ensures DecodeEach(ObjectDecoder(CarInit), RenderAll(es)) == Err(KeyNotFound("model"))
  {
    var dec := ObjectDecoder(CarInit);
    var rs := RenderAll(es);
    var res := DecodeEach(dec, rs);
    i :| 0 <= i < |rs| && dec(rs[i]) == Err(res.error);
    EntryDecodes(es[i]);
  }

  /** An incomplete entry makes the fail-fast decode fail. */
  lemma BrokenEntryFails(es: seq<Entry>, i: nat)
    requires i < |es| && es[i].Incomplete?
    ensures DecodeEach(ObjectDecoder(CarInit), RenderAll(es)).Err?
  {
    var rs := RenderAll(es);
    EntryDecodes(es[i]);
    assert ObjectDecoder(CarInit)(rs[i]).Err?;
  }

  /** Discarding mode over a fixture keeps exactly its complete cars. */
  lemma FixtureDiscarding(doc: map<string, Raw>, es: seq<Entry>)
    requires doc == map["cars" := Arr(RenderAll(es))]
    ensures ArrayValue(doc, "cars", ObjectDecoder(CarInit), "Car", true) == Ok(CompleteCars(es))
  {
    CarsResolve(doc, RenderAll(es));
    FixtureOptionals(es);
    ExpectedSomes(es);
  }

  /** The library test's eight cars, three of which (positions 1, 4 and 6)
      lack their model. */
  function CarEntries(): seq<Entry> {
    [Complete("Toyota", "Prius"), Incomplete("Lexus"), Complete("Honda", "Civic"),
     Complete("Ford", "Focus"), Incomplete("Tesla"), Complete("Audi", "A4"),
     Incomplete("Fiat"), Complete("Volvo", "V70")]
  }

  lemma CarsResolve(doc: map<string, Raw>, cars: seq<Raw>)
    requires doc == map["cars" := Arr(cars)]
    ensures Any(doc, "cars") == Ok(Arr(cars))
  {
    AnySingleSegment(doc, "cars");
  }

  /** The complete cars of the eight entries, in order. */
  lemma CarEntriesComplete(es: seq<Entry>)
    requires es == CarEntries()
    ensures CompleteCars(es) ==
      [Car("Toyota", "Prius"), Car("Honda", "Civic"), Car("Ford", "Focus"), Car("Audi", "A4"), Car("Volvo", "V70")]
  {
    assert CompleteCars(es[7..]) == [Car("Volvo", "V70")];
    assert CompleteCars(es[6..]) == [Car("Volvo", "V70")];
    assert CompleteCars(es[5..]) == [Car("Audi", "A4"), Car("Volvo", "V70")];
    assert CompleteCars(es[4..]) == [Car("Audi", "A4"), Car("Volvo", "V70")];
    assert CompleteCars(es[3..]) == [Car("Ford", "Focus"), Car("Audi", "A4"), Car("Volvo", "V70")];
    assert CompleteCars(es[2..]) == [Car("Honda", "Civic"), Car("Ford", "Focus"), Car("Audi", "A4"), Car("Volvo", "V70")];
    assert CompleteCars(es[1..]) == [Car("Honda", "Civic"), Car("Ford", "Focus"), Car("Audi", "A4"), Car("Volvo", "V70")];
  }

  /** Discarding mode keeps exactly the five well-formed cars, in order. */
  lemma CarsDiscarding(doc: map<string, Raw>, es: seq<Entry>)
    requires es == CarEntries()
    requires doc == map["cars" := Arr(RenderAll(es))]
    ensures ArrayValue(doc, "cars", ObjectDecoder(CarInit), "Car", true) ==
      Ok([Car("Toyota", "Prius"), Car("Honda", "Civic"), Car("Ford", "Focus"), Car("Audi", "A4"), Car("Volvo", "V70")])
  {
    FixtureDiscarding(doc, es);
    CarEntriesComplete(es);
  }

  /** Fail-fast mode fails with the first broken car's missing key. */
  lemma CarsFailFast(doc: map<string, Raw>, es: seq<Entry>)
    requires es == CarEntries()
    requires doc == map["cars" := Arr(RenderAll(es))]
    ensures ArrayValue(doc, "cars", ObjectDecoder(CarInit), "Car", false) == Err(KeyNotFound("model"))
  {
    FixtureBrokenFails(doc, es, 1);
  }

  /** A fixture with a broken car fails in fail-fast mode with the missing
      model key. */
  lemma FixtureBrokenFails(doc: map<string, Raw>, es: seq<Entry>, broken: nat)
    requires doc == map["cars" := Arr(RenderAll(es))]
    requires broken < |es| && es[broken].Incomplete?
    ensures ArrayValue(doc, "cars", ObjectDecoder(CarInit), "Car", false) == Err(KeyNotFound("model"))
  {
    var rs := RenderAll(es);
    CarsResolve(doc, rs);
    BrokenEntryFails(es, broken);
    var _ := FailureIsBrokenEntry(es);
    FailFastKeyError(doc, "cars", ObjectDecoder(CarInit), "Car", rs, KeyNotFound("model"));
  }

  /** A key error of the fail-fast element decode reaches the caller unchanged. */
  lemma FailFastKeyError<T>(doc: map<string, Raw>, key: string, dec: Decoder<T>, element: string,
                            rs: seq<Raw>, e: MarshalError)
    requires Any(doc, key) == Ok(Arr(rs)) && DefinedOnAll(dec, rs)
    requires DecodeEach(dec, rs) == Err(e) && !e.TypeMismatch?
    ensures ArrayValue(doc, key, dec, element, false) == Err(e)
  {
  }

  /** The optional-element form over a fixture keeps every position, with
      nil exactly at the incomplete entries. */
  lemma FixtureOptionalElements(doc: map<string, Raw>, es: seq<Entry>)
    requires doc == map["cars" := Arr(RenderAll(es))]
    ensures var opt := OptionalElementsValue(doc, "cars", ObjectDecoder(CarInit), "Car");
      && opt.Ok? && |opt.value| == |es|
      && forall i :: 0 <= i < |es| ==> (opt.value[i].None? <==> es[i].Incomplete?)
  {
    CarsResolve(doc, RenderAll(es));
    FixtureOptionals(es);
    assert OptionalElementsValue(doc, "cars", ObjectDecoder(CarInit), "Car") == Ok(ExpectedAll(es));
    ExpectedNones(es);
  }

  /** The expected optionals are nil exactly at the incomplete entries. */
  lemma ExpectedNones(es: seq<Entry>)
    ensures forall i :: 0 <= i < |es| ==> (ExpectedAll(es)[i].None? <==> es[i].Incomplete?)
  {
  }

  /** Positions 1, 4 and 6 are the incomplete entries. */
  lemma CarEntriesShape(es: seq<Entry>)
    requires es == CarEntries()
    ensures |es| == 8
    ensures forall i :: 0 <= i < 8 ==> (es[i].Incomplete? <==> i == 1 || i == 4 || i == 6)
  {
  }

  /** The optional-element form keeps all eight positions, with nil exactly
      at the three broken cars. */
  lemma CarsOptionalElements(doc: map<string, Raw>, es: seq<Entry>)
    requires es == CarEntries()
    requires doc == map["cars" := Arr(RenderAll(es))]
    ensures var opt := OptionalElementsValue(doc, "cars", ObjectDecoder(CarInit), "Car");
      && opt.Ok? && |opt.value| == 8
      && forall i :: 0 <= i < 8 ==> (opt.value[i].None? <==> i == 1 || i == 4 || i == 6)
  {
    CarEntriesShape(es);
    FixtureOptionalElements(doc, es);
  }

  /** The `[A?]?` overload delegates to the fail-fast `[A]` decode, so a
      fixture with a broken car gives nil there although `[A?]` keeps every
      position: the broken car's missing key is swallowed for the whole
      array. */
  lemma FixtureOptionalOptionalIsNil(doc: map<string, Raw>, es: seq<Entry>, broken: nat)
    requires doc == map["cars" := Arr(RenderAll(es))]
    requires broken < |es| && es[broken].Incomplete?
    ensures OptionalOptionalElementsValue(doc, "cars", ObjectDecoder(CarInit), "Car") == Ok(None)
    ensures OptionalElementsValue(doc, "cars", ObjectDecoder(CarInit), "Car").Ok?
  {
    CarsResolve(doc, RenderAll(es));
    FixtureFailFast(es);
  }

  /** On the eight cars, `[A?]?` is nil. */
  lemma OptionalOptionalCarsIsNil(doc: map<string, Raw>, es: seq<Entry>)
    requires es == CarEntries()
    requires doc == map["cars" := Arr(RenderAll(es))]
    ensures OptionalOptionalElementsValue(doc, "cars", ObjectDecoder(CarInit), "Car") == Ok(None)
  {
    FixtureOptionalOptionalIsNil(doc, es, 1);
  }

  datatype Status = Recorded | Pending

  /** `Status(rawValue:)`. */
  function StatusFromRaw(raw: string): (s: Option<Status>)
    ensures s == Some(Recorded) <==> raw == "recorded"
    ensures s == Some(Pending) <==> raw == "pending"
  {
    if raw == "recorded" then Some(Recorded)
    else if raw == "pending" then Some(Pending)
    else None
  }

  function Quote(raw: string): string {
    raw
  }

  /** A raw value with a matching case decodes to that case; one without
      is a keyed type mismatch naming the enum and the raw value. */
  lemma RawEnumExample(good: map<string, Raw>, bad: map<string, Raw>)
    requires good == map["status" := Str("recorded")]
    requires bad == map["status" := Str("unknown-junk")]
    ensures RawEnumValue(good, "status", DecodeString, StatusFromRaw, Quote, "Status") == Ok(Recorded)
    ensures RawEnumValue(bad, "status", DecodeString, StatusFromRaw, Quote, "Status") ==
      Err(TypeMismatchWithKey("status", "Status", "unknown-junk"))
  {
    AnySingleSegment(good, "status");
    AnySingleSegment(bad, "status");
  }
}
