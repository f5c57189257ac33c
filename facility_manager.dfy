/** The manager's facility-settings panel: the location and perimeter
    radius being edited, the save that checks them and sends them to the
    settings route, and the browser-side backup of the last saved values. */
module FacilityManagerPanel {
  import opened Common
  import opened FacilitySettingsRoute

  datatype Location = Location(latitude: real, longitude: real)

  /** The panel's status line. */
  datatype Message = Info(text: string) | Problem(text: string)

  /** The values kept in the browser's local storage; the radius is in
      kilometres there, as in the panel. */
  datatype Backup = Backup(location: Location, radius: real)

  /** How the settings route answered the save request: OK, or a failure
      whose JSON body may carry an `error` text. */
  datatype Reply = Saved | Refused(error: Option<string>)

  const DefaultLocation: Location := Location(12.927538, 77.526807)

  /** The default perimeter radius, in kilometres. */
  const DefaultRadius: real := 0.5

  const RadiusNotPositive: string := "Perimeter radius must be greater than 0"
  const SaveFailed: string := "Failed to save to database"
  const SavedText: string := "Facility settings updated successfully in database!"

  /** The panel's own checks, in order: the radius first, then latitude,
      then longitude; the first failure's message, or None. */
  function ClientCheck(location: Location, radius: real): (r: Option<string>)
    ensures r.None? <==> radius > 0.0 && LatitudeOk(location.latitude) && LongitudeOk(location.longitude)
    ensures radius <= 0.0 ==> r == Some(RadiusNotPositive)
    ensures radius > 0.0 && !LatitudeOk(location.latitude) ==> r == Some(LatitudeRange)
    ensures radius > 0.0 && LatitudeOk(location.latitude) && !LongitudeOk(location.longitude) ==>
      r == Some(LongitudeRange)
  {
    if radius <= 0.0 then Some(RadiusNotPositive)
    else if location.latitude < -90.0 || location.latitude > 90.0 then Some(LatitudeRange)
    else if location.longitude < -180.0 || location.longitude > 180.0 then Some(LongitudeRange)
    else None
  }

  /** The body the panel sends: the location, and the radius converted
      from kilometres to metres; no facility name, so the route keeps the
      stored one. */
  function SaveRequest(location: Location, radius: real): (u: SettingsUpdate)
    ensures u.radius.Some? && u.radius.value == radius * 1000.0
    ensures u.latitude == Some(location.latitude) && u.longitude == Some(location.longitude)
    ensures !Present(u.facilityName)
  {
    SettingsUpdate(Some(location.latitude), Some(location.longitude), Some(radius * 1000.0), None)
  }

  /** The panel and the route accept the same values: a request the panel
      lets through passes the route's checks, and one the panel stops would
      fail them; on the coordinates both give the same message. */
  lemma ClientAgreesWithRoute(location: Location, radius: real)
    ensures ClientCheck(location, radius).None? <==> ValidateUpdate(SaveRequest(location, radius)).None?
    ensures radius > 0.0 ==> ClientCheck(location, radius) == ValidateUpdate(SaveRequest(location, radius))
  {
    assert radius > 0.0 <==> radius * 1000.0 > 0.0;
  }

  class FacilityManager {
    var location: Location
    /** The perimeter radius in kilometres. */
    var radius: real
    var isEditing: bool
    var isLoading: bool
    var message: Option<Message>
    /** The local-storage backup. */
    var backup: Option<Backup>

    /** Whatever is in the backup passed the panel's checks. */
    ghost predicate Valid()
      reads this
    {
      backup.Some? ==> ClientCheck(backup.value.location, backup.value.radius).None?
    }

    /** A fresh panel: the default location and radius, not editing, and
        an empty backup. */
    constructor ()
      ensures Valid()
      ensures location == DefaultLocation && radius == DefaultRadius
      ensures !isEditing && !isLoading && message.None? && backup.None?
    {
      location, radius := DefaultLocation, DefaultRadius;
      isEditing, isLoading, message, backup := false, false, None, None;
    }

    /** `handleSave`. Values failing the panel's checks are not sent and
        show the failed check's message. Otherwise the request of
        `SaveRequest` is sent (returned as `sent`), and `reply` is the
        route's answer: a refusal shows the route's error text (or a
        fallback) and keeps editing; only an accepted save writes the
        backup, leaves editing and shows the success text. The location and
        radius being edited never change. */
    method HandleSave(reply: Reply) returns (sent: Option<SettingsUpdate>)
      requires Valid()
      modifies this
      ensures Valid()
      ensures location == old(location) && radius == old(radius) && !isLoading
      ensures ClientCheck(old(location), old(radius)).Some? ==>
        && sent.None?
        && message == Some(Problem(ClientCheck(old(location), old(radius)).value))
        && backup == old(backup) && isEditing == old(isEditing)
      ensures ClientCheck(old(location), old(radius)).None? ==>
        && sent == Some(SaveRequest(old(location), old(radius)))
        && ValidateUpdate(sent.value).None?
      ensures ClientCheck(old(location), old(radius)).None? && reply.Refused? ==>
        && message == Some(Problem(OrElse(reply.error, SaveFailed)))
        && backup == old(backup) && isEditing == old(isEditing)
      ensures ClientCheck(old(location), old(radius)).None? && reply.Saved? ==>
        && message == Some(Info(SavedText))
        && backup == Some(Backup(old(location), old(radius)))
        && !isEditing
    {
      isLoading := true;
      message := None;
      var invalid := ClientCheck(location, radius);
      if invalid.Some? {
        sent := None;
        message := Some(Problem(invalid.value));
      } else {
        sent := Some(SaveRequest(location, radius));
        ClientAgreesWithRoute(location, radius);
        match reply
        case Refused(error) =>
          message := Some(Problem(OrElse(error, SaveFailed)));
        case Saved =>
          backup := Some(Backup(location, radius));
          message := Some(Info(SavedText));
          isEditing := false;
      }
      isLoading := false;
    }

    /** `handleCancel`: the backup, when there is one, replaces the values
        being edited; editing ends and the message is cleared. */
    method HandleCancel()
      requires Valid()
      modifies this
      ensures Valid()
      ensures backup == old(backup) && isLoading == old(isLoading)
      ensures old(backup).Some? ==> location == old(backup).value.location && radius == old(backup).value.radius
      ensures old(backup).None? ==> location == old(location) && radius == old(radius)
      ensures !isEditing && message.None?
      ensures backup.Some? ==> ClientCheck(location, radius).None?
    {
      if backup.Some? {
        location, radius := backup.value.location, backup.value.radius;
      }
      isEditing := false;
      message := None;
    }
  }
}
