/**
  Validation of a posted sighting (server/validators.py). The request body is
  a JSON object; it is accepted only when it has exactly the keys `world` and
  `location`, both integers, with a members' world number and a known
  location. The checks run in a fixed order and the first one that fails
  decides the error.
*/
module Validators {
  import opened Wrappers
  import opened Ring

  /** A JSON value of the request body: an integer, or anything else. */
  datatype Value = IntValue(n: int) | OtherValue

  /** `ValidationError`, one constructor per message the server raises it with. */
  datatype ValidationError =
    | InvalidKeys
    | InvalidWorldType
    | InvalidLocationType
    | InvalidWorld
    | InvalidLocation
  {
    /** The message the exception carries. */
    function Message(): string {
      match this
      case InvalidKeys => "Invalid keys"
      case InvalidWorldType => "Invalid world type"
      case InvalidLocationType => "Invalid location type"
      case InvalidWorld => "Invalid world"
      case InvalidLocation => "Invalid location"
    }

    /** Position of the check in the order `validate_post` runs them. */
    function Rank(): nat {
      match this
      case InvalidKeys => 0
      case InvalidWorldType => 1
      case InvalidLocationType => 2
      case InvalidWorld => 3
      case InvalidLocation => 4
    }
  }

  /** The lowest and one-past-highest world numbers accepted. */
  const MinWorld: int := 300
  const WorldLimit: int := 600

  /** `validate_post`: the world and location, or the first check that fails. */
  function ValidatePost(data: map<string, Value>): (r: Result<(int, int), ValidationError>)
    ensures r.Success? ==> data.Keys == {"world", "location"}
    ensures r.Success? ==> data["world"] == IntValue(r.value.0) && data["location"] == IntValue(r.value.1)
    ensures r.Success? ==> MinWorld <= r.value.0 < WorldLimit && 0 <= r.value.1 < LocationCount
  {
    if data.Keys != {"world", "location"} then
      Failure(InvalidKeys)
    else
      var world, location := data["world"], data["location"];
      if !world.IntValue? then
        Failure(InvalidWorldType)
      else if !location.IntValue? then
        Failure(InvalidLocationType)
      else if world.n < MinWorld || world.n >= WorldLimit then
        Failure(InvalidWorld)
      else if location.n !in LocationNames then
        Failure(InvalidLocation)
      else
        LocationTable();
        Success((world.n, location.n))
  }

  /**
    Whether a check, taken on its own, rejects the request: the key check
    looks at the key set, each type check at its value, each range check at
    its value when that value is an integer.
  */
  predicate Violates(data: map<string, Value>, e: ValidationError) {
    match e
    case InvalidKeys => data.Keys != {"world", "location"}
    case InvalidWorldType => "world" in data && !data["world"].IntValue?
    case InvalidLocationType => "location" in data && !data["location"].IntValue?
    case InvalidWorld =>
      "world" in data && data["world"].IntValue?
      && (data["world"].n < MinWorld || data["world"].n >= WorldLimit)
    case InvalidLocation =>
      "location" in data && data["location"].IntValue?
      && !(0 <= data["location"].n < LocationCount)
  }

  /**
    A request is accepted exactly when no check rejects it, and then the
    result is its world and location unchanged; otherwise the error is a
    failing check, and no failing check comes before it in the order.
  */
  lemma FirstFailingCheckDecides(data: map<string, Value>)
    ensures ValidatePost(data).Success? <==> forall e: ValidationError :: !Violates(data, e)
    ensures ValidatePost(data).Success? ==>
      ValidatePost(data).value == (data["world"].n, data["location"].n)
    ensures ValidatePost(data).Failure? ==>
      && Violates(data, ValidatePost(data).error)
      && forall e: ValidationError :: Violates(data, e) ==> ValidatePost(data).error.Rank() <= e.Rank()
  {
    if "location" in data && data["location"].IntValue? {
      LocationTable();
    }
    if ValidatePost(data).Success? {
      forall e: ValidationError
        ensures !Violates(data, e)
      {
      }
    } else {
      var r := ValidatePost(data);
      if data.Keys == {"world", "location"} {
        assert "world" in data && "location" in data;
      }
      assert Violates(data, r.error);
    }
  }

  /** Each check raises its own message, so the message names the check that failed. */
  lemma MessageIdentifiesCheck(e: ValidationError, e': ValidationError)
    ensures e.Message() == e'.Message() <==> e == e'
  {
  }

  /** A well-formed request is accepted and yields its own world and location. */
  lemma AcceptsWellFormed(world: int, location: int)
    requires MinWorld <= world < WorldLimit && 0 <= location < LocationCount
    ensures ValidatePost(map["world" := IntValue(world), "location" := IntValue(location)])
      == Success((world, location))
  {
    var data := map["world" := IntValue(world), "location" := IntValue(location)];
    assert data.Keys == {"world", "location"};
    LocationTable();
  }
}
