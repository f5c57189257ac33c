/** The facility-settings API route: reading the single settings row, and
    the validated update of its location and perimeter radius. */
module FacilitySettingsRoute {
  import opened Common
  import opened Db

  /** The fields of a PUT body. A coordinate or radius is `None` when the
      JSON value there is not a number (missing, a string, null...). */
  datatype SettingsUpdate = SettingsUpdate(
    latitude: Option<real>,
    longitude: Option<real>,
    radius: Option<real>,
    facilityName: Option<string>)

  /** The facility as the route reports it. */
  datatype FacilityView = FacilityView(id: nat, name: string, latitude: real, longitude: real, radius: real)

  /** The facility as GET reports it, with its manager's name. */
  datatype FacilityInfo = FacilityInfo(view: FacilityView, manager: string)

  const NotNumbers: string := "Invalid input: latitude, longitude, and radius must be numbers"
  const LatitudeRange: string := "Latitude must be between -90 and 90"
  const LongitudeRange: string := "Longitude must be between -180 and 180"
  const RadiusPositive: string := "Radius must be greater than 0"
  const NothingToUpdate: string := "No facility settings found to update"
  const NothingFound: string := "No facility settings found"
  const UpdateFailed: string := "Failed to update facility settings"

  predicate LatitudeOk(latitude: real) {
    -90.0 <= latitude <= 90.0
  }

  predicate LongitudeOk(longitude: real) {
    -180.0 <= longitude <= 180.0
  }

  /** The PUT guard chain: the first failing check's message, or None when
      the update may proceed. The checks run in the order number types,
      latitude, longitude, radius; both coordinate ranges are closed. */
  function ValidateUpdate(u: SettingsUpdate): (r: Option<string>)
    ensures r.None? <==>
      u.latitude.Some? && u.longitude.Some? && u.radius.Some? &&
      LatitudeOk(u.latitude.value) && LongitudeOk(u.longitude.value) && u.radius.value > 0.0
    ensures !(u.latitude.Some? && u.longitude.Some? && u.radius.Some?) ==> r == Some(NotNumbers)
    ensures u.latitude.Some? && u.longitude.Some? && u.radius.Some? ==>
      && (!LatitudeOk(u.latitude.value) ==> r == Some(LatitudeRange))
      && (LatitudeOk(u.latitude.value) && !LongitudeOk(u.longitude.value) ==> r == Some(LongitudeRange))
      && (LatitudeOk(u.latitude.value) && LongitudeOk(u.longitude.value) && u.radius.value <= 0.0 ==>
            r == Some(RadiusPositive))
  {
    if u.latitude.None? || u.longitude.None? || u.radius.None? then Some(NotNumbers)
    else if u.latitude.value < -90.0 || u.latitude.value > 90.0 then Some(LatitudeRange)
    else if u.longitude.value < -180.0 || u.longitude.value > 180.0 then Some(LongitudeRange)
    else if u.radius.value <= 0.0 then Some(RadiusPositive)
    else None
  }

  function ViewOf(s: FacilitySettings): FacilityView {
    FacilityView(s.id, s.facility, s.latitude, s.longitude, s.radius)
  }

  /** GET: the first settings row with its manager's user name, "Unknown"
      when the row has no manager, the manager no user or the user an empty
      name; 404 when there is no settings row. */
  function GetFacilitySettings(settings: seq<FacilitySettings>, managers: seq<ManagerRow>, users: seq<User>)
    : (r: Response<FacilityInfo>)
    ensures settings == [] <==> r == Failure(404, NothingFound)
    ensures settings != [] ==> r.Success? && r.payload.view == ViewOf(settings[0])
    ensures settings != [] ==>
      var s := settings[0];
      if s.managerId.Some? && FindManager(managers, s.managerId.value).Some?
         && FindUser(users, FindManager(managers, s.managerId.value).value.userId).Some?
      then
        var name := FindUser(users, FindManager(managers, s.managerId.value).value.userId).value.name;
        r.payload.manager == (if name != "" then name else "Unknown")
      else r.payload.manager == "Unknown"
  {
    if settings == [] then Failure(404, NothingFound)
    else
      var s := settings[0];
      var name :=
        if s.managerId.None? then None
        else match FindManager(managers, s.managerId.value)
          case None => None
          case Some(m) =>
            match FindUser(users, m.userId)
            case None => None
            case Some(u) => Some(u.name);
      Success(FacilityInfo(ViewOf(s), OrElse(name, "Unknown")))
  }

  /** The settings row after a valid update: the new location and radius,
      and the new name only when one is given. */
  function Updated(s: FacilitySettings, latitude: real, longitude: real, radius: real, facilityName: Option<string>)
    : (r: FacilitySettings)
    ensures r.id == s.id && r.managerId == s.managerId
    ensures r.latitude == latitude && r.longitude == longitude && r.radius == radius
    ensures Present(facilityName) ==> r.facility == facilityName.value
    ensures !Present(facilityName) ==> r.facility == s.facility
  {
    s.(latitude := latitude, longitude := longitude, radius := radius, facility := OrElse(facilityName, s.facility))
  }

  /** PUT. An unreadable body fails with 500; a request failing a check
      gets 400 with that check's message; with no settings row it gets
      404; otherwise the first row is updated and reported, and a following
      GET reports the new values. Nothing changes unless the answer is 200. */
  method PutFacilitySettings(db: Database, body: Body<SettingsUpdate>) returns (r: Response<FacilityView>)
    requires db.Valid()
    modifies db
    ensures db.Valid()
    ensures body.Malformed? ==> r == Failure(500, UpdateFailed)
    ensures body.Parsed? && ValidateUpdate(body.fields).Some? ==> r == Failure(400, ValidateUpdate(body.fields).value)
    ensures body.Parsed? && ValidateUpdate(body.fields).None? && old(db.facilitySettings) == [] ==>
      r == Failure(404, NothingToUpdate)
    ensures body.Parsed? && ValidateUpdate(body.fields).None? && old(db.facilitySettings) != [] ==> r.Success?
    ensures r.Failure? ==> unchanged(db)
    ensures r.Success? ==>
      var u := body.fields;
      && body.Parsed? && ValidateUpdate(u).None? && old(db.facilitySettings) != []
      && db.facilitySettings == old(db.facilitySettings)[0 := Updated(old(db.facilitySettings)[0],
                                 u.latitude.value, u.longitude.value, u.radius.value, u.facilityName)]
      && r.payload == ViewOf(db.facilitySettings[0])
      && db.users == old(db.users) && db.employees == old(db.employees) && db.managers == old(db.managers)
      && db.timeEntries == old(db.timeEntries) && db.signupRequests == old(db.signupRequests)
      && db.nextId == old(db.nextId)
    ensures r.Success? ==>
      var got := GetFacilitySettings(db.facilitySettings, db.managers, db.users);
      got.Success? && got.payload.view == r.payload
  {
    if body.Malformed? {
      return Failure(500, UpdateFailed);
    }
    var u := body.fields;
    var invalid := ValidateUpdate(u);
    if invalid.Some? {
      return Failure(400, invalid.value);
    }
    if db.facilitySettings == [] {
      return Failure(404, NothingToUpdate);
    }
    var row := Updated(db.facilitySettings[0], u.latitude.value, u.longitude.value, u.radius.value, u.facilityName);
    db.facilitySettings := db.facilitySettings[0 := row];
    r := Success(ViewOf(row));
  }
}
