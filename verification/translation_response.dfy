/**
 * The translation API's answer (model/TranslationResponse.java): a mutable
 * record set by its constructors and setters. Java's `null` is `None`; the
 * clock reading of the two-argument constructor is a parameter.
 */
module TranslationResponses {
  import opened Wrappers

  const SourceLanguage: string := "English"
  const TargetLanguage: string := "Moroccan Darija"

  class TranslationResponse {
    var originalText: Option<string>
    var translatedText: Option<string>
    var sourceLanguage: Option<string>
    var targetLanguage: Option<string>
    var timestamp: int

    /** The no-argument constructor: every field keeps Java's default. */
    constructor ()
      ensures originalText == None && translatedText == None
      ensures sourceLanguage == None && targetLanguage == None && timestamp == 0
    {
      originalText, translatedText := None, None;
      sourceLanguage, targetLanguage, timestamp := None, None, 0;
    }

    /**
     * The two-argument constructor: both texts unchanged, the fixed language
     * labels, and the time of construction.
     */
    constructor Of(originalText: Option<string>, translatedText: Option<string>, now: int)
      ensures this.originalText == originalText && this.translatedText == translatedText
      ensures sourceLanguage == Some(SourceLanguage) && targetLanguage == Some(TargetLanguage)
      ensures timestamp == now
    {
      this.originalText, this.translatedText := originalText, translatedText;
      sourceLanguage, targetLanguage := Some(SourceLanguage), Some(TargetLanguage);
      timestamp := now;
    }

    method SetOriginalText(originalText: Option<string>)
      modifies this
      ensures this.originalText == originalText
      ensures translatedText == old(translatedText) && sourceLanguage == old(sourceLanguage)
      ensures targetLanguage == old(targetLanguage) && timestamp == old(timestamp)
    {
      this.originalText := originalText;
    }

    method SetTranslatedText(translatedText: Option<string>)
      modifies this
      ensures this.translatedText == translatedText
      ensures originalText == old(originalText) && sourceLanguage == old(sourceLanguage)
      ensures targetLanguage == old(targetLanguage) && timestamp == old(timestamp)
    {
      this.translatedText := translatedText;
    }

    method SetSourceLanguage(sourceLanguage: Option<string>)
      modifies this
      ensures this.sourceLanguage == sourceLanguage
      ensures originalText == old(originalText) && translatedText == old(translatedText)
      ensures targetLanguage == old(targetLanguage) && timestamp == old(timestamp)
    {
      this.sourceLanguage := sourceLanguage;
    }

    method SetTargetLanguage(targetLanguage: Option<string>)
      modifies this
      ensures this.targetLanguage == targetLanguage
      ensures originalText == old(originalText) && translatedText == old(translatedText)
      ensures sourceLanguage == old(sourceLanguage) && timestamp == old(timestamp)
    {
      this.targetLanguage := targetLanguage;
    }

    method SetTimestamp(timestamp: int)
      modifies this
      ensures this.timestamp == timestamp
      ensures originalText == old(originalText) && translatedText == old(translatedText)
      ensures sourceLanguage == old(sourceLanguage) && targetLanguage == old(targetLanguage)
    {
      this.timestamp := timestamp;
    }
  }
}
