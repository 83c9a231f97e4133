/** `server/audio_utils.py`: the retention table, hash-deduplicated saving,
    re-rating and the cleanup of expired recordings. `now` is the caller's
    `datetime.utcnow()`, in seconds; the SHA-256 digest of the content is
    computed by the caller and passed in. */
module AudioUtils {
  import opened Wrappers
  import opened Models

  const SecondsPerDay: int := 86400

  /** The retention period, in days, of a recording from `source` rated `rating`. */
  function RetentionDays(source: Source, rating: Rating): (days: Option<nat>)
    ensures days.None? <==> source == OtherSource
    ensures days.Some? ==> days.value >= 7
  {
    match source
    case Microphone => Some(if rating == Unknown then 7 else if rating == Like then 90 else 30)
    case Upload => Some(if rating == Unknown then 30 else if rating == Like then 180 else 60)
    case OtherSource => None
  }

  /** `calculate_expiration_date`: `now` plus the retention period, or `None`
      for a source that is neither microphone nor upload. */
  function CalculateExpirationDate(source: Source, rating: Rating, now: int): (r: Option<int>)
    ensures r.None? <==> source == OtherSource
    ensures r.Some? ==> r.value >= now + 7 * SecondsPerDay
  {
    match RetentionDays(source, rating)
    case None => None
    case Some(days) => Some(now + days * SecondsPerDay)
  }

  /** The table of the source: 7/90/30 days for the microphone and 30/180/60
      days for uploads, for unrated, liked and disliked recordings. */
  lemma RetentionTable()
    ensures RetentionDays(Microphone, Unknown) == Some(7)
    ensures RetentionDays(Microphone, Like) == Some(90)
    ensures RetentionDays(Microphone, Dislike) == Some(30)
    ensures RetentionDays(Upload, Unknown) == Some(30)
    ensures RetentionDays(Upload, Like) == Some(180)
    ensures RetentionDays(Upload, Dislike) == Some(60)
  {
  }

  /** Uploads are kept strictly longer than microphone recordings with the
      same rating, and within one source a like keeps a recording longer than
      a dislike, which keeps it longer than no rating. */
  lemma RetentionOrdering(source: Source, rating: Rating)
    requires source != OtherSource
    ensures RetentionDays(Upload, rating).value > RetentionDays(Microphone, rating).value
    ensures RetentionDays(source, Like).value > RetentionDays(source, Dislike).value
              > RetentionDays(source, Unknown).value
  {
  }

  /** Whether `cleanup_expired_records` selects the record at `now`
      (`expiration_date <= now`; a NULL expiration never compares true). */
  predicate Expired(r: AudioRecord, now: int) {
    r.expiration.Some? && r.expiration.value <= now
  }

  datatype SaveStatus = Existing | New

  predicate HashStored(audio: map<nat, AudioRecord>, audioHash: string) {
    exists k :: k in audio && audio[k].audioHash == audioHash
  }

  /** The row `save_audio_record` inserts: unrated, with its expiration set. */
  function NewRecord(userId: Option<string>, audioUrl: string, transcription: Option<string>,
                     language: string, audioHash: string, source: Source, now: int): (r: AudioRecord)
    ensures r.rating == Unknown && r.audioHash == audioHash && r.userId == userId
    ensures r.expiration == CalculateExpirationDate(source, Unknown, now)
  {
    AudioRecord(userId, audioUrl, transcription, now, language, audioHash, source, Unknown,
                CalculateExpirationDate(source, Unknown, now))
  }

  /** `save_audio_record`: content whose hash is already stored gives back the
      stored row's id and inserts nothing; otherwise a new unrated row is
      inserted under the next id. */
  method SaveAudioRecord(db: Database, userId: Option<string>, audioUrl: string, transcription: Option<string>,
                         language: string, audioHash: string, source: Source, now: int)
    returns (id: nat, status: SaveStatus)
    requires db.Valid()
    modifies db`audio, db`nextAudioId
    ensures db.Valid()
    ensures HashStored(old(db.audio), audioHash) ==>
              status == Existing && id in old(db.audio) && old(db.audio)[id].audioHash == audioHash
              && db.audio == old(db.audio) && db.nextAudioId == old(db.nextAudioId)
    ensures !HashStored(old(db.audio), audioHash) ==>
              status == New && id == old(db.nextAudioId) && id !in old(db.audio)
              && db.audio == old(db.audio)[id := NewRecord(userId, audioUrl, transcription, language, audioHash, source, now)]
              && db.nextAudioId == id + 1
  {
    if k :| k in db.audio && db.audio[k].audioHash == audioHash {
      return k, Existing;
    }
    id := db.nextAudioId;
    db.audio := db.audio[id := NewRecord(userId, audioUrl, transcription, language, audioHash, source, now)];
    db.nextAudioId := id + 1;
    status := New;
  }

  /** A freshly saved recording is never already expired. */
  lemma NewRecordNotExpired(userId: Option<string>, audioUrl: string, transcription: Option<string>,
                            language: string, audioHash: string, source: Source, now: int)
    ensures !Expired(NewRecord(userId, audioUrl, transcription, language, audioHash, source, now), now)
    ensures source != OtherSource ==>
              Expired(NewRecord(userId, audioUrl, transcription, language, audioHash, source, now),
                      now + RetentionDays(source, Unknown).value * SecondsPerDay)
  {
  }

  /** `update_audio_rating`. The rating is the result of `RatingEnum(rating)`:
      `None` when the value names no member, which the source reports as a
      `ValueError`. */
  method UpdateAudioRating(db: Database, recordId: nat, rating: Option<Rating>, now: int)
    returns (ok: bool, message: string)
    requires db.Valid()
    modifies db`audio
    ensures db.Valid()
    ensures recordId !in old(db.audio) ==>
              !ok && message == "Record not found" && db.audio == old(db.audio)
    ensures recordId in old(db.audio) && rating.None? ==>
              !ok && message == "Invalid rating value" && db.audio == old(db.audio)
    ensures recordId in old(db.audio) && rating.Some? ==>
              ok && message == "Rating updated successfully"
              && db.audio == old(db.audio)[recordId := old(db.audio)[recordId].(
                   rating := rating.value,
                   expiration := CalculateExpirationDate(old(db.audio)[recordId].source, rating.value, now))]
  {
    if recordId !in db.audio {
      return false, "Record not found";
    }
    if rating.None? {
      return false, "Invalid rating value";
    }
    var rec := db.audio[recordId];
    db.audio := db.audio[recordId := rec.(rating := rating.value,
                                          expiration := CalculateExpirationDate(rec.source, rating.value, now))];
    ok, message := true, "Rating updated successfully";
  }

  /** The rows `cleanup_expired_records` keeps. */
  function Unexpired(audio: map<nat, AudioRecord>, now: int): (kept: map<nat, AudioRecord>)
    ensures forall k :: k in kept <==> k in audio && !Expired(audio[k], now)
    ensures forall k :: k in kept ==> kept[k] == audio[k]
  {
    map k | k in audio && !Expired(audio[k], now) :: audio[k]
  }

  function ExpiredIds(audio: map<nat, AudioRecord>, now: int): set<nat> {
    set k | k in audio && Expired(audio[k], now)
  }

  /** `cleanup_expired_records`: deletes, one by one, exactly the rows whose
      expiration has passed and returns how many there were. Removing the
      files is I/O. */
  method CleanupExpiredRecords(db: Database, now: int) returns (count: nat, message: string)
    requires db.Valid()
    modifies db`audio
    ensures db.Valid()
    ensures db.audio == Unexpired(old(db.audio), now)
    ensures count == |ExpiredIds(old(db.audio), now)|
    ensures message == "Expired records cleaned up successfully"
  {
    var expired := ExpiredIds(db.audio, now);
    ghost var all := db.audio;
    var pending := expired;
    count := 0;
    while pending != {}
      invariant pending <= expired
      invariant count + |pending| == |expired|
      invariant db.nextAudioId == old(db.nextAudioId)
      invariant forall k :: k in db.audio <==> k in all && (k in pending || k !in expired)
      invariant forall k :: k in db.audio ==> db.audio[k] == all[k]
      decreases |pending|
    {
      var k :| k in pending;
      db.audio := map j | j in db.audio && j != k :: db.audio[j];
      pending := pending - {k};
      count := count + 1;
    }
    assert db.audio == Unexpired(all, now);
    message := "Expired records cleaned up successfully";
  }

  /** After a cleanup nothing expired at that instant is left, and a later
      cleanup at the same instant deletes nothing. */
  lemma CleanupIdempotent(audio: map<nat, AudioRecord>, now: int)
    ensures forall k :: k in Unexpired(audio, now) ==> !Expired(Unexpired(audio, now)[k], now)
    ensures Unexpired(Unexpired(audio, now), now) == Unexpired(audio, now)
    ensures ExpiredIds(Unexpired(audio, now), now) == {}
  {
  }
}
