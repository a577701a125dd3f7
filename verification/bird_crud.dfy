/** Bird creation and update (`BirdCRUD.create_bird` and
    `BirdCRUD.update_bird` in `app/crud/bird_crud.py`).

    Creation runs in one transaction: it fills in the band ID, breeder,
    year and number from one another, links (and if need be inserts) the
    parents, defaults the date of birth, and inserts the bird. An exception
    other than `IntegrityError` escapes the function (`Err`) and nothing is
    committed; an `IntegrityError` (a duplicate band ID or a breeder
    reference that does not exist) is caught, the transaction rolled back,
    and `None` returned. */
module BirdCrud {
  import opened Wrappers
  import opened Text
  import opened Schema
  import opened BandId

  /** The `BirdCreate` request body. */
  datatype BirdCreate = BirdCreate(bandId: Option<string>, birdYear: Option<int>, birdNumber: Option<int>,
                                   name: Option<string>, dob: Option<Date>, sex: Option<string>,
                                   fatherBandId: Option<string>, motherBandId: Option<string>,
                                   breederId: Option<int>, ownerId: Option<int>)

  /** The exceptions that escape `create_bird`: the `ValueError`s it raises,
      the `OverflowError` of `datetime` for a year that is not a C `int`,
      and the database's `DataError` for a band ID longer than its column. */
  datatype BirdError =
    | MissingBreederId
    | MissingBirdYear
    | MissingBirdNumber
    | BreederNotFound(id: int)
    | BreederCodeNotFound(code: string)
    | BadYear(part: string)
    | BadNumber(part: string)
    | FatherNotMale(found: Option<string>)
    | MotherNotFemale(found: Option<string>)
    | YearOverflow(year: int)
    | BandIdTooLong(bandId: string)

  /** Python truthiness of an optional integer and an optional string. */
  predicate TruthyInt(o: Option<int>) {
    o.Some? && o.value != 0
  }

  predicate TruthyStr(o: Option<string>) {
    o.Some? && o.value != ""
  }

  /** `datetime.MINYEAR` and `datetime.MAXYEAR` */
  const MinYear: int := 1
  const MaxYear: int := 9999

  /** The range of a C `int`, which `datetime` requires of each argument
      before it checks the year against `MINYEAR` and `MAXYEAR`. */
  const CIntMin: int := -0x8000_0000
  const CIntMax: int := 0x7FFF_FFFF

  /** `String(100)` of `bird.band_id`. */
  const BandIdWidth: int := 100

  /** The band ID as given, or generated from breeder, year and number;
      the requirements are checked in that order, then the breeder looked up. */
  function ResolveBandId(db: Db, data: BirdCreate): (r: Result<string, BirdError>)
    ensures TruthyStr(data.bandId) ==> r == Ok(data.bandId.value)
    ensures !TruthyStr(data.bandId) ==>
              (r.Ok? <==> && TruthyInt(data.breederId) && TruthyInt(data.birdYear) && TruthyInt(data.birdNumber)
                          && BreederById(db, data.breederId.value).Some?)
    ensures !TruthyStr(data.bandId) && r.Ok? ==>
              r.value == FormatBandId(BreederById(db, data.breederId.value).value.breederCode,
                                      data.birdYear.value, data.birdNumber.value)
    ensures !TruthyStr(data.bandId) && !TruthyInt(data.breederId) ==> r == Err(MissingBreederId)
    ensures !TruthyStr(data.bandId) && TruthyInt(data.breederId) && !TruthyInt(data.birdYear) ==>
              r == Err(MissingBirdYear)
    ensures (!TruthyStr(data.bandId) && TruthyInt(data.breederId) && TruthyInt(data.birdYear)
             && !TruthyInt(data.birdNumber)) ==> r == Err(MissingBirdNumber)
  {
    if TruthyStr(data.bandId) then Ok(data.bandId.value)
    else if !TruthyInt(data.breederId) then Err(MissingBreederId)
    else if !TruthyInt(data.birdYear) then Err(MissingBirdYear)
    else if !TruthyInt(data.birdNumber) then Err(MissingBirdNumber)
    else match BreederById(db, data.breederId.value)
      case None => Err(BreederNotFound(data.breederId.value))
      case Some(b) => Ok(FormatBandId(b.breederCode, data.birdYear.value, data.birdNumber.value))
  }

  /** Without a breeder id, the breeder whose code is the band ID minus its
      last two parts; a band ID of fewer than three parts leaves the id as
      it was. */
  function DeriveBreederId(db: Db, band: string, breederId: Option<int>): (r: Result<Option<int>, BirdError>)
    ensures TruthyInt(breederId) || BreederCodeOf(band).None? ==> r == Ok(breederId)
    ensures !TruthyInt(breederId) && BreederCodeOf(band).Some? ==>
              var found := BreederByCode(db, BreederCodeOf(band).value);
              && (r.Ok? <==> found.Some?)
              && (r.Ok? ==> r.value == Some(found.value.id))
  {
    if TruthyInt(breederId) then Ok(breederId)
    else match BreederCodeOf(band)
      case None => Ok(breederId)
      case Some(code) =>
        match BreederByCode(db, code)
        case None => Err(BreederCodeNotFound(code))
        case Some(b) => Ok(Some(b.id))
  }

  /** Without a year, `int()` of the second-to-last part, when there is one. */
  function DeriveYear(band: string, year: Option<int>): (r: Result<Option<int>, BirdError>)
    ensures TruthyInt(year) || YearPartOf(band).None? ==> r == Ok(year)
    ensures !TruthyInt(year) && YearPartOf(band).Some? ==>
              var parsed := ParseDigits(YearPartOf(band).value);
              && (r.Ok? <==> parsed.Some?)
              && (r.Ok? ==> r.value == Some(parsed.value))
  {
    if TruthyInt(year) then Ok(year)
    else match YearPartOf(band)
      case None => Ok(year)
      case Some(part) =>
        match ParseDigits(part)
        case None => Err(BadYear(part))
        case Some(n) => Ok(Some(n))
  }

  /** Without a number, `int()` of the last part. The number is not stored:
      deriving it only decides whether creation fails. */
  function DeriveNumber(band: string, number: Option<int>): (r: Result<Option<int>, BirdError>)
    ensures TruthyInt(number) ==> r == Ok(number)
    ensures !TruthyInt(number) ==>
              var parsed := ParseDigits(NumberPartOf(band));
              && (r.Ok? <==> parsed.Some?)
              && (r.Ok? ==> r.value == Some(parsed.value))
  {
    if TruthyInt(number) then Ok(number)
    else match ParseDigits(NumberPartOf(band))
      case None => Err(BadNumber(NumberPartOf(band)))
      case Some(n) => Ok(Some(n))
  }

  /** Band ID, breeder, year and number once all derivations have run. */
  datatype Derived = Derived(bandId: string, breederId: Option<int>, birdYear: Option<int>, birdNumber: Option<int>)

  /** The derivations run in order and the first one that fails decides
      the error. */
  function Derive(db: Db, data: BirdCreate): (r: Result<Derived, BirdError>)
    ensures r.Ok? ==> r.value.bandId != ""
    ensures r.Ok? ==> r.value.birdNumber.Some?
    ensures ResolveBandId(db, data).Err? ==> r == Err(ResolveBandId(db, data).error)
    ensures ResolveBandId(db, data).Ok? ==>
              var band := ResolveBandId(db, data).value;
              var breederId := DeriveBreederId(db, band, data.breederId);
              var year := DeriveYear(band, data.birdYear);
              var number := DeriveNumber(band, data.birdNumber);
              && (breederId.Err? ==> r == Err(breederId.error))
              && (breederId.Ok? && year.Err? ==> r == Err(year.error))
              && (breederId.Ok? && year.Ok? && number.Err? ==> r == Err(number.error))
              && (r.Ok? <==> breederId.Ok? && year.Ok? && number.Ok?)
              && (r.Ok? ==> r.value.bandId == band && r.value.breederId == breederId.value
                            && r.value.birdYear == year.value && r.value.birdNumber == number.value)
  {
    var band :- ResolveBandId(db, data);
    var breederId :- DeriveBreederId(db, band, data.breederId);
    var year :- DeriveYear(band, data.birdYear);
    var number :- DeriveNumber(band, data.birdNumber);
    Ok(Derived(band, breederId, year, number))
  }

  datatype Parentage = Father | Mother

  function SexOf(p: Parentage): string {
    if p == Father then "M" else "F"
  }

  function WrongSex(p: Parentage, found: Option<string>): BirdError {
    if p == Father then FatherNotMale(found) else MotherNotFemale(found)
  }

  /** A nullable reference to `breeder.id` that the foreign key accepts. */
  predicate BreederRef(db: Db, id: Option<int>) {
    id.None? || BreederById(db, id.value).Some?
  }

  /** One parent resolved: its id and the session's rows afterwards, or a
      foreign-key failure when the inserted parent is flushed. */
  datatype Parent = Linked(id: Option<int>, db: Db) | FlushFailed

  /** `db'` is `db` with at most `k` birds appended and nothing else changed. */
  predicate Grows(db: Db, db': Db, k: nat) {
    && db' == db.(birds := db'.birds)
    && db.birds <= db'.birds
    && |db'.birds| <= |db.birds| + k
  }

  /** `id` links a parent that exists in `db` with the requested band ID
      and the parent's sex, or is empty when no parent band ID was given. */
  predicate ParentLinked(db: Db, p: Parentage, band: Option<string>, id: Option<int>) {
    if TruthyStr(band) then
      id.Some? && exists f :: f in db.birds && f.id == id.value && f.bandId == band.value && f.sex == Some(SexOf(p))
    else id.None?
  }

  lemma ParentLinkedGrows(db: Db, db': Db, p: Parentage, band: Option<string>, id: Option<int>)
    requires ParentLinked(db, p, band, id)
    requires db.birds <= db'.birds
    ensures ParentLinked(db', p, band, id)
  {
    if TruthyStr(band) {
      var f :| f in db.birds && f.id == id.value && f.bandId == band.value && f.sex == Some(SexOf(p));
      var k :| 0 <= k < |db.birds| && db.birds[k] == f;
      assert db'.birds[k] == f;
    }
  }

  /** Links the parent with the given band ID; an existing bird must have
      the parent's sex, a missing one is inserted with that sex and the
      child's breeder and owner. */
  function ResolveParent(db: Db, p: Parentage, band: Option<string>, breederId: Option<int>,
                         ownerId: Option<int>): (r: Result<Parent, BirdError>)
    ensures r.Ok? && r.value.Linked? ==> ParentLinked(r.value.db, p, band, r.value.id) && Grows(db, r.value.db, 1)
    ensures !TruthyStr(band) ==> r == Ok(Linked(None, db))
    ensures TruthyStr(band) && BirdByBandId(db, band.value).Some? ==>
              var found := BirdByBandId(db, band.value).value;
              && (r.Ok? <==> found.sex == Some(SexOf(p)))
              && (r.Ok? ==> r.value == Linked(Some(found.id), db))
              && (r.Err? ==> r.error == WrongSex(p, found.sex))
    ensures TruthyStr(band) && BirdByBandId(db, band.value).None? ==>
              && r.Ok?
              && (r.value.FlushFailed? <==> !(BreederRef(db, breederId) && BreederRef(db, ownerId)))
              && (r.value.Linked? ==>
                    && r.value.id.Some?
                    && BirdById(db, r.value.id.value).None?
                    && r.value.db == db.(birds := db.birds + [Bird(r.value.id.value, band.value, None, None,
                                                                    Some(SexOf(p)), None, None, breederId, ownerId)]))
  {
    if !TruthyStr(band) then Ok(Linked(None, db))
    else match BirdByBandId(db, band.value)
      case Some(found) =>
        if found.sex == Some(SexOf(p)) then Ok(Linked(Some(found.id), db)) else Err(WrongSex(p, found.sex))
      case None =>
        if BreederRef(db, breederId) && BreederRef(db, ownerId) then
          var id := NextId(db.birds, (b: Bird) => b.id);
          var parent := Bird(id, band.value, None, None, Some(SexOf(p)), None, None, breederId, ownerId);
          var db' := db.(birds := db.birds + [parent]);
          assert db'.birds[|db.birds|] == parent;
          Ok(Linked(Some(id), db'))
        else Ok(FlushFailed)
  }

  /** `datetime(bird_year, 1, 1)` when no date of birth is given and the
      year is truthy. A year outside `MINYEAR..MAXYEAR` raises `ValueError`,
      which is caught and leaves the date empty; a year that is not even a
      C `int` raises `OverflowError`, which is not caught. */
  function DefaultDob(dob: Option<Date>, year: Option<int>): (r: Result<Option<Date>, BirdError>)
    ensures dob.Some? ==> r == Ok(dob)
    ensures dob.None? && !TruthyInt(year) ==> r == Ok(None)
    ensures dob.None? && TruthyInt(year) ==> (r.Err? <==> year.value < CIntMin || CIntMax < year.value)
    ensures r.Err? ==> year.Some? && r.error == YearOverflow(year.value)
    ensures dob.None? && r.Ok? ==> (r.value.Some? <==> year.Some? && MinYear <= year.value <= MaxYear)
    ensures dob.None? && r.Ok? && r.value.Some? ==> r.value.value == Date(year.value, 1, 1)
  {
    if dob.Some? then Ok(dob)
    else if !TruthyInt(year) then Ok(None)
    else if year.value < CIntMin || CIntMax < year.value then Err(YearOverflow(year.value))
    else if MinYear <= year.value <= MaxYear then Ok(Some(Date(year.value, 1, 1)))
    else Ok(None)
  }

  /** The final insert and commit of `create_bird` into the session's rows
      `db1` (the caller's database `db` plus any inserted parents). A band
      ID too long for its column is refused with a `DataError` that
      escapes; a duplicate band ID or a breeder reference that does not
      exist rolls everything back to `db`. */
  function InsertBird(db: Db, db1: Db, d: Derived, data: BirdCreate, dob: Option<Date>, fatherId: Option<int>,
                      motherId: Option<int>): (r: Result<Outcome<Option<Bird>>, BirdError>)
    requires Grows(db, db1, 2)
    ensures r.Err? <==> |d.bandId| > BandIdWidth
    ensures r.Err? ==> r.error == BandIdTooLong(d.bandId)
    ensures r.Ok? ==> (r.value.result.None? <==>
              BirdByBandId(db1, d.bandId).Some? || !BreederRef(db, d.breederId) || !BreederRef(db, data.ownerId))
    ensures r.Ok? && r.value.result.None? ==> r.value.db == db
    ensures r.Ok? && r.value.result.Some? ==>
              var b := r.value.result.value;
              && b.bandId == d.bandId && b.breederId == d.breederId && b.ownerId == data.ownerId
              && b.name == data.name && b.sex == data.sex && b.dob == dob
              && b.fatherId == fatherId && b.motherId == motherId
              && BirdById(db1, b.id).None?
              && Grows(db, r.value.db, 3) && r.value.db.birds == db1.birds + [b]
  {
    if |d.bandId| > BandIdWidth then Err(BandIdTooLong(d.bandId))
    else if BirdByBandId(db1, d.bandId).Some? || !BreederRef(db1, d.breederId) || !BreederRef(db1, data.ownerId) then
      Ok(Outcome(None, db))
    else
      var b := Bird(NextId(db1.birds, (x: Bird) => x.id), d.bandId, data.name, dob,
                    data.sex, fatherId, motherId, d.breederId, data.ownerId);
      Ok(Outcome(Some(b), db1.(birds := db1.birds + [b])))
  }

  /** The facts about a bird `create_bird` stored, as a change from `db`
      to `db'`. */
  ghost predicate Created(db: Db, db': Db, d: Derived, data: BirdCreate, b: Bird) {
    && b.bandId == d.bandId && b.breederId == d.breederId && b.ownerId == data.ownerId
    && b.name == data.name && b.sex == data.sex && DefaultDob(data.dob, d.birdYear) == Ok(b.dob)
    && Grows(db, db', 3) && |db'.birds| > 0 && db'.birds[|db'.birds| - 1] == b
    && BirdByBandId(db, b.bandId).None?
    && BreederRef(db, b.breederId) && BreederRef(db, b.ownerId)
    && ParentLinked(db', Father, data.fatherBandId, b.fatherId)
    && ParentLinked(db', Mother, data.motherBandId, b.motherId)
  }

  /** The rest of `create_bird` once the father is linked in the session's
      rows `fdb`: the mother, then the date of birth, then the insert. */
  function CreateWithFather(db: Db, fdb: Db, d: Derived, data: BirdCreate, fatherId: Option<int>)
    : (r: Result<Outcome<Option<Bird>>, BirdError>)
    requires Grows(db, fdb, 1)
    requires ParentLinked(fdb, Father, data.fatherBandId, fatherId)
    ensures var mother := ResolveParent(fdb, Mother, data.motherBandId, d.breederId, data.ownerId);
            && (mother.Err? ==> r == Err(mother.error))
            && (mother.Ok? && mother.value.FlushFailed? ==> r == Ok(Outcome(None, db)))
            && (mother.Ok? && mother.value.Linked? ==>
                  var dob := DefaultDob(data.dob, d.birdYear);
                  && (dob.Err? ==> r == Err(dob.error))
                  && (dob.Ok? ==> r == InsertBird(db, mother.value.db, d, data, dob.value, fatherId,
                                                  mother.value.id)))
    ensures r.Ok? && r.value.result.None? ==> r.value.db == db
    ensures r.Ok? && r.value.result.Some? ==> r.value.result.value.fatherId == fatherId
    ensures r.Ok? && r.value.result.Some? ==> Created(db, r.value.db, d, data, r.value.result.value)
  {
    var mother :- ResolveParent(fdb, Mother, data.motherBandId, d.breederId, data.ownerId);
    if mother.FlushFailed? then Ok(Outcome(None, db))
    else
      var dob :- DefaultDob(data.dob, d.birdYear);
      var r :- InsertBird(db, mother.db, d, data, dob, fatherId, mother.id);
      if r.result.Some? then
        InsertedBirdLinked(db, fdb, mother.db, d, data, dob, fatherId, mother.id);
        Ok(r)
      else Ok(r)
  }

  /** `create_bird`: the derivations, then the father, then the mother,
      then the date of birth, then the insert; each stage's exception
      escapes, and a refused flush or insert rolls back to `db`. */
  function CreateBird(db: Db, data: BirdCreate): (r: Result<Outcome<Option<Bird>>, BirdError>)
    ensures Derive(db, data).Err? ==> r == Err(Derive(db, data).error)
    ensures r.Ok? ==> Derive(db, data).Ok?
    ensures Derive(db, data).Ok? ==>
              var d := Derive(db, data).value;
              var father := ResolveParent(db, Father, data.fatherBandId, d.breederId, data.ownerId);
              && (father.Err? ==> r == Err(father.error))
              && (father.Ok? && father.value.FlushFailed? ==> r == Ok(Outcome(None, db)))
              && (father.Ok? && father.value.Linked? ==>
                    r == CreateWithFather(db, father.value.db, d, data, father.value.id))
    ensures r.Ok? && r.value.result.None? ==> r.value.db == db
    ensures r.Ok? && r.value.result.Some? ==> Created(db, r.value.db, Derive(db, data).value, data, r.value.result.value)
  {
    var d :- Derive(db, data);
    var father :- ResolveParent(db, Father, data.fatherBandId, d.breederId, data.ownerId);
    if father.FlushFailed? then Ok(Outcome(None, db))
    else CreateWithFather(db, father.db, d, data, father.id)
  }

  /** A bird with a new band ID that fits its column, an existing breeder,
      a valid owner reference, a year and a number, and no parents, is
      inserted as the one new row. */
  lemma CreateBirdInserts(db: Db, data: BirdCreate)
    requires TruthyStr(data.bandId) && |data.bandId.value| <= BandIdWidth
    requires BirdByBandId(db, data.bandId.value).None?
    requires TruthyInt(data.breederId) && BreederById(db, data.breederId.value).Some?
    requires BreederRef(db, data.ownerId)
    requires TruthyInt(data.birdYear) && CIntMin <= data.birdYear.value <= CIntMax
    requires TruthyInt(data.birdNumber)
    requires !TruthyStr(data.fatherBandId) && !TruthyStr(data.motherBandId)
    ensures var r := CreateBird(db, data);
            && r.Ok? && r.value.result.Some?
            && r.value.result.value.bandId == data.bandId.value
            && r.value.result.value.breederId == data.breederId
            && r.value.result.value.fatherId.None? && r.value.result.value.motherId.None?
            && r.value.db == db.(birds := db.birds + [r.value.result.value])
  {
    var d := Derived(data.bandId.value, data.breederId, data.birdYear, data.birdNumber);
    assert Derive(db, data) == Ok(d);
    assert ResolveParent(db, Father, data.fatherBandId, d.breederId, data.ownerId) == Ok(Linked(None, db));
    assert ResolveParent(db, Mother, data.motherBandId, d.breederId, data.ownerId) == Ok(Linked(None, db));
    var dob := DefaultDob(data.dob, d.birdYear);
    assert dob.Ok?;
    var ins := InsertBird(db, db, d, data, dob.value, None, None);
    assert ins.Ok? && ins.value.result.Some?;
  }

  /** An existing father that is not male is refused before anything is
      written. */
  lemma WrongSexParentRejected(db: Db, data: BirdCreate)
    requires Derive(db, data).Ok?
    requires TruthyStr(data.fatherBandId) && BirdByBandId(db, data.fatherBandId.value).Some?
    requires BirdByBandId(db, data.fatherBandId.value).value.sex != Some("M")
    ensures CreateBird(db, data) == Err(FatherNotMale(BirdByBandId(db, data.fatherBandId.value).value.sex))
  {
  }

  /** The bird `InsertBird` stores after both parents were resolved keeps
      both parent links and had a band ID new to the caller's database. */
  lemma InsertedBirdLinked(db: Db, fdb: Db, mdb: Db, d: Derived, data: BirdCreate, dob: Option<Date>,
                           fatherId: Option<int>, motherId: Option<int>)
    requires Grows(db, fdb, 1) && Grows(fdb, mdb, 1)
    requires ParentLinked(fdb, Father, data.fatherBandId, fatherId)
    requires ParentLinked(mdb, Mother, data.motherBandId, motherId)
    requires InsertBird(db, mdb, d, data, dob, fatherId, motherId).Ok?
    requires InsertBird(db, mdb, d, data, dob, fatherId, motherId).value.result.Some?
    ensures var r := InsertBird(db, mdb, d, data, dob, fatherId, motherId).value;
            && ParentLinked(r.db, Father, data.fatherBandId, fatherId)
            && ParentLinked(r.db, Mother, data.motherBandId, motherId)
            && BirdByBandId(db, d.bandId).None?
  {
    var r := InsertBird(db, mdb, d, data, dob, fatherId, motherId).value;
    ParentLinkedGrows(fdb, r.db, Father, data.fatherBandId, fatherId);
    ParentLinkedGrows(mdb, r.db, Mother, data.motherBandId, motherId);
    BandAbsentFromPrefix(db, mdb, d.bandId);
  }

  /** A band ID absent from a table is absent from any prefix of it. */
  lemma BandAbsentFromPrefix(db: Db, db1: Db, band: string)
    requires db.birds <= db1.birds
    requires BirdByBandId(db1, band).None?
    ensures BirdByBandId(db, band).None?
  {
    forall j | 0 <= j < |db.birds| ensures db.birds[j].bandId != band {
      assert db.birds[j] == db1.birds[j];
    }
  }

  /** Appending a row whose id and band ID are new keeps both unique. */
  lemma AppendKeepsUnique(birds: seq<Bird>, b: Bird)
    requires BirdsUnique(birds)
    requires forall j :: 0 <= j < |birds| ==> birds[j].id != b.id && birds[j].bandId != b.bandId
    ensures BirdsUnique(birds + [b])
  {
  }

  lemma FreshBird(db: Db, b: Bird)
    requires BirdById(db, b.id).None? && BirdByBandId(db, b.bandId).None?
    ensures forall j :: 0 <= j < |db.birds| ==> db.birds[j].id != b.id && db.birds[j].bandId != b.bandId
  {
  }

  /** Resolving a parent keeps bird ids and band IDs unique. */
  lemma ResolveParentKeepsUnique(db: Db, p: Parentage, band: Option<string>, breederId: Option<int>,
                                 ownerId: Option<int>)
    requires BirdsUnique(db.birds)
    ensures var r := ResolveParent(db, p, band, breederId, ownerId);
            r.Ok? && r.value.Linked? ==> BirdsUnique(r.value.db.birds)
  {
    var r := ResolveParent(db, p, band, breederId, ownerId);
    if r.Ok? && r.value.Linked? && r.value.db != db {
      var parent := Bird(r.value.id.value, band.value, None, None, Some(SexOf(p)), None, None, breederId, ownerId);
      FreshBird(db, parent);
      AppendKeepsUnique(db.birds, parent);
    }
  }

  /** Creating a bird, with whatever parents it inserts, keeps bird ids and
      band IDs unique. */
  lemma CreateBirdKeepsUnique(db: Db, data: BirdCreate)
    requires BirdsUnique(db.birds)
    ensures var r := CreateBird(db, data);
            r.Ok? ==> BirdsUnique(r.value.db.birds)
  {
    var r := CreateBird(db, data);
    if r.Ok? && r.value.result.Some? {
      var d := Derive(db, data).value;
      var father := ResolveParent(db, Father, data.fatherBandId, d.breederId, data.ownerId).value;
      ResolveParentKeepsUnique(db, Father, data.fatherBandId, d.breederId, data.ownerId);
      var mother := ResolveParent(father.db, Mother, data.motherBandId, d.breederId, data.ownerId).value;
      ResolveParentKeepsUnique(father.db, Mother, data.motherBandId, d.breederId, data.ownerId);
      var b := r.value.result.value;
      var dob := DefaultDob(data.dob, d.birdYear).value;
      assert InsertBird(db, mother.db, d, data, dob, father.id, mother.id) == Ok(r.value);
      FreshBird(mother.db, b);
      AppendKeepsUnique(mother.db.birds, b);
    }
  }

  /** A band ID generated from breeder, year and number, submitted again on
      its own, derives the same breeder, year and number: the breeder code
      is recovered even when it contains dashes. */
  lemma GeneratedBandRederives(db: Db, data: BirdCreate)
    requires BreedersUnique(db.breeders)
    requires !TruthyStr(data.bandId)
    requires TruthyInt(data.breederId) && BreederById(db, data.breederId.value).Some?
    requires data.birdYear.Some? && data.birdYear.value > 0
    requires data.birdNumber.Some? && data.birdNumber.value > 0
    ensures ResolveBandId(db, data).Ok?
    ensures var band := ResolveBandId(db, data).value;
            var again := data.(bandId := Some(band), breederId := None, birdYear := None, birdNumber := None);
            && Derive(db, data).Ok?
            && Derive(db, again) == Derive(db, data)
  {
    var breeder := BreederById(db, data.breederId.value).value;
    var year := data.birdYear.value;
    var number := data.birdNumber.value;
    assert ResolveBandId(db, data).Ok?;
    var band := ResolveBandId(db, data).value;
    BandIdRoundTrip(breeder.breederCode, year, number);
    UniqueBreederLookup(db, breeder);
    assert band == FormatBandId(breeder.breederCode, year, number);
  }

  /** A father and a mother given the same band ID that does not exist yet
      cannot both be satisfied: the father is inserted as male, and the
      mother lookup then finds him. */
  lemma SameBandParentsRejected(db: Db, data: BirdCreate)
    requires Derive(db, data).Ok?
    requires TruthyStr(data.fatherBandId) && data.motherBandId == data.fatherBandId
    requires BirdByBandId(db, data.fatherBandId.value).None?
    requires BreederRef(db, Derive(db, data).value.breederId) && BreederRef(db, data.ownerId)
    ensures CreateBird(db, data) == Err(MotherNotFemale(Some("M")))
  {
    var d := Derive(db, data).value;
    var father := ResolveParent(db, Father, data.fatherBandId, d.breederId, data.ownerId).value;
    var band := data.fatherBandId.value;
    assert father.db.birds[|db.birds|].bandId == band;
    assert FirstIndex(father.db.birds, (b: Bird) => b.bandId == band) == Some(|db.birds|) by {
      var f := FirstIndex(father.db.birds, (b: Bird) => b.bandId == band);
      assert f.Some?;
      FreshPrefixIndex(db.birds, father.db.birds, band);
    }
  }

  lemma FreshPrefixIndex(birds: seq<Bird>, birds': seq<Bird>, band: string)
    requires |birds'| == |birds| + 1 && birds <= birds' && birds'[|birds|].bandId == band
    requires forall j :: 0 <= j < |birds| ==> birds[j].bandId != band
    ensures FirstIndex(birds', (b: Bird) => b.bandId == band) == Some(|birds|)
  {
    var f := FirstIndex(birds', (b: Bird) => b.bandId == band);
    assert f.Some?;
  }

  /** The `BirdUpdate` request body after `dict(exclude_unset=True)`: an
      outer `None` is a field that was not sent, `Some(None)` an explicit
      null. */
  datatype BirdUpdate = BirdUpdate(bandId: Option<Option<string>>, name: Option<Option<string>>,
                                   dob: Option<Option<Date>>, sex: Option<Option<string>>,
                                   fatherId: Option<Option<int>>, motherId: Option<Option<int>>,
                                   breederId: Option<Option<int>>, ownerId: Option<Option<int>>)

  const NoChanges: BirdUpdate := BirdUpdate(None, None, None, None, None, None, None, None)

  function Pick<T>(patch: Option<T>, current: T): T {
    if patch.Some? then patch.value else current
  }

  /** The row after the `setattr` loop of `update_bird`; `None` when the
      band ID is set to null, which the `NOT NULL` constraint refuses. */
  function PatchBird(b: Bird, u: BirdUpdate): (r: Option<Bird>)
    ensures r.None? <==> u.bandId == Some(None)
    ensures r.Some? ==>
              && r.value.id == b.id
              && (u.bandId.None? ==> r.value.bandId == b.bandId)
              && (u.bandId.Some? ==> Some(r.value.bandId) == u.bandId.value)
              && (u.name.None? ==> r.value.name == b.name)
              && (u.dob.None? ==> r.value.dob == b.dob)
              && (u.sex.None? ==> r.value.sex == b.sex)
              && (u.fatherId.None? ==> r.value.fatherId == b.fatherId)
              && (u.motherId.None? ==> r.value.motherId == b.motherId)
              && (u.breederId.None? ==> r.value.breederId == b.breederId)
              && (u.ownerId.None? ==> r.value.ownerId == b.ownerId)
              && (u.name.Some? ==> r.value.name == u.name.value)
              && (u.dob.Some? ==> r.value.dob == u.dob.value)
              && (u.sex.Some? ==> r.value.sex == u.sex.value)
              && (u.fatherId.Some? ==> r.value.fatherId == u.fatherId.value)
              && (u.motherId.Some? ==> r.value.motherId == u.motherId.value)
              && (u.breederId.Some? ==> r.value.breederId == u.breederId.value)
              && (u.ownerId.Some? ==> r.value.ownerId == u.ownerId.value)
  {
    if u.bandId == Some(None) then None
    else
      Some(Bird(b.id, if u.bandId.Some? then u.bandId.value.value else b.bandId,
                Pick(u.name, b.name), Pick(u.dob, b.dob), Pick(u.sex, b.sex),
                Pick(u.fatherId, b.fatherId), Pick(u.motherId, b.motherId),
                Pick(u.breederId, b.breederId), Pick(u.ownerId, b.ownerId)))
  }

  /** A nullable reference to `bird.id` that the foreign key accepts. */
  predicate BirdRef(db: Db, id: Option<int>) {
    id.None? || BirdById(db, id.value).Some?
  }

  /** The constraints the database checks when the row at `i` is rewritten
      to `v`: a band ID no other row has, and existing referenced rows. */
  predicate RowAccepted(db: Db, i: nat, v: Bird) {
    && (forall j :: 0 <= j < |db.birds| && j != i ==> db.birds[j].bandId != v.bandId)
    && BreederRef(db, v.breederId) && BreederRef(db, v.ownerId)
    && BirdRef(db, v.fatherId) && BirdRef(db, v.motherId)
  }

  /** Every stored bird's references exist, as the foreign keys ensure. */
  ghost predicate BirdRefsValid(db: Db) {
    forall i :: 0 <= i < |db.birds| ==>
      && BreederRef(db, db.birds[i].breederId) && BreederRef(db, db.birds[i].ownerId)
      && BirdRef(db, db.birds[i].fatherId) && BirdRef(db, db.birds[i].motherId)
  }

  /** `update_bird`: `None` for an unknown id; `None` with the transaction
      rolled back when the rewritten row breaks a constraint; otherwise the
      row is replaced in place. */
  function UpdateBird(db: Db, id: int, u: BirdUpdate): (r: Outcome<Option<Bird>>)
    ensures BirdById(db, id).None? ==> r == Outcome(None, db)
    ensures BirdById(db, id).Some? ==>
              var i := FirstIndex(db.birds, (b: Bird) => b.id == id).value;
              var v := PatchBird(db.birds[i], u);
              (r.result.Some? <==> v.Some? && RowAccepted(db, i, v.value))
    ensures r.result.None? ==> r.db == db
    ensures r.result.Some? ==>
              exists i :: 0 <= i < |db.birds| && db.birds[i].id == id
                          && Some(db.birds[i]) == BirdById(db, id)
                          && PatchBird(db.birds[i], u) == r.result
                          && RowAccepted(db, i, r.result.value)
                          && r.db == db.(birds := db.birds[i := r.result.value])
  {
    match FirstIndex(db.birds, (b: Bird) => b.id == id)
    case None => Outcome(None, db)
    case Some(i) =>
      match PatchBird(db.birds[i], u)
      case None => Outcome(None, db)
      case Some(v) =>
        if RowAccepted(db, i, v) then Outcome(Some(v), db.(birds := db.birds[i := v])) else Outcome(None, db)
  }

  /** In a consistent database an update that sends no fields returns the
      bird and changes nothing. */
  lemma EmptyUpdateChangesNothing(db: Db, id: int)
    requires BirdsUnique(db.birds) && BirdRefsValid(db)
    ensures UpdateBird(db, id, NoChanges) == Outcome(BirdById(db, id), db)
  {
    var f := FirstIndex(db.birds, (b: Bird) => b.id == id);
    if f.Some? {
      var i := f.value;
      assert RowAccepted(db, i, db.birds[i]);
      assert db.birds[i := db.birds[i]] == db.birds;
    }
  }

  /** Sending the same update twice has the effect of sending it once. */
  lemma UpdateBirdIdempotent(db: Db, id: int, u: BirdUpdate)
    requires BirdsUnique(db.birds)
    ensures var once := UpdateBird(db, id, u);
            once.result.Some? ==> UpdateBird(once.db, id, u) == once
  {
    var once := UpdateBird(db, id, u);
    if once.result.Some? {
      var i := FirstIndex(db.birds, (b: Bird) => b.id == id).value;
      var v := once.result.value;
      assert once.db.birds[i] == v;
      assert FirstIndex(once.db.birds, (b: Bird) => b.id == id) == Some(i) by {
        var g := FirstIndex(once.db.birds, (b: Bird) => b.id == id);
        assert g.Some?;
      }
      assert PatchBird(v, u) == Some(v);
      assert RowAccepted(once.db, i, v) by {
        forall j | 0 <= j < |once.db.birds| && j != i ensures once.db.birds[j].bandId != v.bandId {
          assert once.db.birds[j] == db.birds[j];
        }
        BirdRefsKept(db, once.db, i, v);
      }
      assert once.db.birds[i := v] == once.db.birds;
    }
  }

  /** Rewriting one row in place, keeping its id, keeps every bird id
      reference resolvable. */
  lemma BirdRefsKept(db: Db, db': Db, i: nat, v: Bird)
    requires i < |db.birds| && v.id == db.birds[i].id
    requires db' == db.(birds := db.birds[i := v])
    requires RowAccepted(db, i, v)
    ensures BirdRef(db', v.fatherId) && BirdRef(db', v.motherId)
    ensures BreederRef(db', v.breederId) && BreederRef(db', v.ownerId)
  {
    if v.fatherId.Some? {
      var k := FirstIndex(db.birds, (b: Bird) => b.id == v.fatherId.value).value;
      if k == i { assert db'.birds[i].id == v.fatherId.value; } else { assert db'.birds[k] == db.birds[k]; }
    }
    if v.motherId.Some? {
      var k := FirstIndex(db.birds, (b: Bird) => b.id == v.motherId.value).value;
      if k == i { assert db'.birds[i].id == v.motherId.value; } else { assert db'.birds[k] == db.birds[k]; }
    }
  }
}
