/** The request checks of `server/routes_service.py`: the upload extension
    filter and the decisions `transcribe` and `translate` take before
    handing the work to a speech or translation model. */
module RoutesService {
  import opened Wrappers
  import opened Strings
  import opened RequestBody

  const AllowedExtensions: set<string> := {"webm", "wav", "mp3"}

  /** The text after the last dot, `filename.rsplit('.', 1)[1]`, when there is a dot. */
  function Extension(filename: string): string {
    var pieces := SplitOn(filename, '.');
    pieces[|pieces| - 1]
  }

  /** `allowed_file`. */
  predicate AllowedFile(filename: string) {
    '.' in filename && Lower(Extension(filename)) in AllowedExtensions
  }

  /** A name is allowed exactly when it has a dot and what follows its last
      dot, lowercased, is one of the three extensions. */
  lemma AllowedFileIff(filename: string)
    ensures AllowedFile(filename) <==>
              exists i :: 0 <= i < |filename| && filename[i] == '.' && '.' !in filename[i + 1..]
                          && Lower(filename[i + 1..]) in AllowedExtensions
  {
    if '.' in filename {
      var j := LastDot(filename);
      var ext := filename[j + 1..];
      if Lower(ext) in AllowedExtensions {
        assert AllowedFile(filename);
        assert 0 <= j < |filename| && filename[j] == '.' && '.' !in filename[j + 1..]
               && Lower(filename[j + 1..]) in AllowedExtensions;
      } else {
        assert !AllowedFile(filename);
        forall i | 0 <= i < |filename| && filename[i] == '.' && '.' !in filename[i + 1..]
          ensures Lower(filename[i + 1..]) !in AllowedExtensions
        {
          LastDotUnique(filename, i, j);
        }
      }
    } else {
      forall i | 0 <= i < |filename|
        ensures filename[i] != '.'
      {
      }
    }
  }

  /** The position of the last dot, after which `Extension` starts. */
  lemma LastDot(filename: string) returns (j: nat)
    requires '.' in filename
    ensures j < |filename| && filename[j] == '.' && '.' !in filename[j + 1..]
    ensures Extension(filename) == filename[j + 1..]
  {
    j := LastSeparator(filename, '.');
  }

  lemma LastDotUnique(s: string, i: nat, j: nat)
    requires i < |s| && j < |s| && s[i] == '.' && s[j] == '.'
    requires '.' !in s[i + 1..] && '.' !in s[j + 1..]
    ensures i == j
  {
  }

  /** The extension of `stem.ext` is `ext` when `ext` has no dot, whatever
      dots the stem holds. */
  lemma ExtensionOf(stem: string, ext: string)
    requires '.' !in ext
    ensures Extension(stem + "." + ext) == ext
  {
    SplitOnLastAfter(stem, '.', ext);
  }

  lemma AllowedOf(stem: string, ext: string)
    requires '.' !in ext
    ensures AllowedFile(stem + "." + ext) <==> Lower(ext) in AllowedExtensions
  {
    ExtensionOf(stem, ext);
    assert (stem + "." + ext)[|stem|] == '.';
  }

  /** A name without a dot is rejected. */
  lemma RejectedWithoutDot(filename: string)
    requires '.' !in filename
    ensures !AllowedFile(filename)
  {
  }

  /** A name whose last character is the dot is rejected. */
  lemma RejectedEndingInDot(filename: string)
    requires filename != [] && filename[|filename| - 1] == '.'
    ensures !AllowedFile(filename)
  {
    var stem := filename[..|filename| - 1];
    assert filename == stem + "." + [];
    AllowedOf(stem, []);
    assert Lower([]) == [];
  }

  /** The extension test ignores case and looks at the last dot only. */
  lemma UpperCaseAccepted()
    ensures AllowedFile("X.WAV")
  {
    AllowedOf("X", "WAV");
    assert "X" + "." + "WAV" == "X.WAV";
    assert Lower("WAV") == "wav";
  }

  lemma InnerDotIgnored()
    ensures AllowedFile("a.b.mp3")
  {
    AllowedOf("a.b", "mp3");
    assert "a.b" + "." + "mp3" == "a.b.mp3";
    assert Lower("mp3") == "mp3";
  }

  /** An allowed extension followed by another one does not count. */
  lemma OnlyLastExtensionCounts(stem: string)
    ensures !AllowedFile(stem + ".mp3" + ".txt")
  {
    AllowedOf(stem + ".mp3", "txt");
    assert stem + ".mp3" + ".txt" == stem + ".mp3" + "." + "txt";
    assert Lower("txt") == "txt";
    assert "txt"[0] != "webm"[0] && "txt"[0] != "wav"[0] && "txt"[0] != "mp3"[0];
  }

  // ---------------------------------------------------------------------------
  // `transcribe`.

  datatype TranscribeOutcome = NoFilePart | NoSelectedFile | InvalidFileType | Accepted(filename: string)

  /** The checks of `transcribe`, in order. `filename` is the upload's
      `filename`, which Werkzeug leaves `None` when the part carries none; an
      upload with no name is falsy. Saving and transcribing the accepted file
      is I/O and model inference. */
  function TranscribeDecision(hasFilePart: bool, filename: Option<string>): (r: TranscribeOutcome)
    ensures !hasFilePart <==> r == NoFilePart
    ensures hasFilePart && filename == Some("") <==> r == NoSelectedFile
    ensures r.Accepted? <==> hasFilePart && filename.Some? && AllowedFile(filename.value)
    ensures r.Accepted? ==> Some(r.filename) == filename
  {
    if !hasFilePart then NoFilePart
    else if filename == Some("") then NoSelectedFile
    else if filename.Some? && AllowedFile(filename.value) then Accepted(filename.value)
    else InvalidFileType
  }

  // ---------------------------------------------------------------------------
  // `translate`.

  datatype Direction = ThaiToKhummuang | KhummuangToThai

  datatype TranslateOutcome = NoTextProvided | UnsupportedLanguagePair | Dispatch(direction: Direction, text: string)

  /** The decision of `translate`: the text must be truthy, the languages
      default to `TH` and `KM` when their keys are absent, and only the two
      exact upper-case pairs pick a translator. The handler then calls that
      translator's `translate` method, which `Translator.py` does not define;
      the call itself is not part of this model. */
  function TranslateDecision(body: Json): (r: TranslateOutcome)
    ensures !Truthy(Get(body, "text")) <==> r == NoTextProvided
    ensures r.Dispatch? ==> Get(body, "text") == Str(r.text)
    ensures r.Dispatch? && r.direction == ThaiToKhummuang <==>
              Truthy(Get(body, "text")) && GetOr(body, "source_lang", "TH") == Str("TH")
              && GetOr(body, "target_lang", "KM") == Str("KM")
    ensures r.Dispatch? && r.direction == KhummuangToThai <==>
              Truthy(Get(body, "text")) && GetOr(body, "source_lang", "TH") == Str("KM")
              && GetOr(body, "target_lang", "KM") == Str("TH")
  {
    var text := Get(body, "text");
    var source := GetOr(body, "source_lang", "TH");
    var target := GetOr(body, "target_lang", "KM");
    if !Truthy(text) then NoTextProvided
    else if source == Str("TH") && target == Str("KM") then Dispatch(ThaiToKhummuang, text.s)
    else if source == Str("KM") && target == Str("TH") then Dispatch(KhummuangToThai, text.s)
    else UnsupportedLanguagePair
  }

  /** Missing text is reported before the languages are looked at, and a
      body with only a text translates Thai to Khummuang. */
  lemma TranslateDefaults(text: string)
    requires text != []
    ensures TranslateDecision(map["text" := Str(text)]) == Dispatch(ThaiToKhummuang, text)
    ensures TranslateDecision(map["source_lang" := Str("xx")]) == NoTextProvided
  {
  }

  /** A present `null` language is not replaced by the default. */
  lemma NullLanguageUnsupported(text: string)
    requires text != []
    ensures TranslateDecision(map["text" := Str(text), "source_lang" := Null]) == UnsupportedLanguagePair
  {
  }

  /** The language labels the client translates to API codes
      (`client/src/ServiceAPI.jsx`): the two language names become
      lower-case codes, anything else is passed through. */
  function ApiLanguageCode(name: string): string {
    if name == "ไทย" then "th" else if name == "คำเมือง" then "km" else name
  }

  /** The codes the client sends are lower case, so every request the client
      makes for either direction is refused as an unsupported pair. */
  lemma ClientCodesUnsupported(text: string, sourceName: string, targetName: string)
    requires text != []
    requires sourceName in {"ไทย", "คำเมือง"} && targetName in {"ไทย", "คำเมือง"}
    ensures TranslateDecision(map["text" := Str(text),
                                  "source_lang" := Str(ApiLanguageCode(sourceName)),
                                  "target_lang" := Str(ApiLanguageCode(targetName))])
            == UnsupportedLanguagePair
  {
  }
}
