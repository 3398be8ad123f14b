/** Shared vocabulary of the newsletter app: the option and result wrappers,
    the theme identifiers, the citation record, the generated newsletter and
    the application status. */
module Types {

  datatype Option<+T> = None | Some(value: T) {
    function GetOr(default: T): T {
      match this
      case Some(v) => v
      case None => default
    }
  }

  /** A thrown exception is modelled as a `Failure`. */
  datatype Result<+R, +E> = Success(value: R) | Failure(error: E)

  /** The `ThemeId` string enum; `Value()` is the string each member stands for. */
  datatype ThemeId = AI | ROBOTICS | HARDWARE | SCIENCE | WORLD | CRYPTO | SPACE | GAMING {
    function Value(): string {
      match this
      case AI => "AI"
      case ROBOTICS => "Robotics"
      case HARDWARE => "Hardware & Wearables"
      case SCIENCE => "Scientific Breakthroughs"
      case WORLD => "World News"
      case CRYPTO => "Crypto & Web3"
      case SPACE => "Space Exploration"
      case GAMING => "Gaming Industry"
    }
  }

  /** One entry of the theme reference table. */
  datatype ThemeOption = ThemeOption(id: ThemeId, labelText: string, icon: string, description: string)

  /** A citation taken from the model's grounding metadata. */
  datatype GroundingSource = GroundingSource(title: string, uri: string)

  /** The clock reading stamped on a newsletter; its meaning is left to the caller. */
  datatype Timestamp = Timestamp(millis: int)

  /** The result of one generation. */
  datatype NewsletterData = NewsletterData(content: string, sources: seq<GroundingSource>, generatedAt: Timestamp)

  datatype AppStatus = Selection | Generating | Preview | Sent | Error
}
