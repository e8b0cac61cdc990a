/**
 * The résumé records the components read out of a profile file
 * (`personalInfo`, `summary`, `experience`, `education`). Fields a profile
 * may leave out and that the code prints or links anyway are `Option`s.
 */
module Profile {
  import opened JsText

  datatype PersonalInfo = PersonalInfo(
    name: string, title: string, email: string, phone: string, location: string,
    linkedin: Option<string>, github: Option<string>)

  /** One `experience` entry. */
  datatype Position = Position(company: string, position: string, duration: string, achievements: seq<string>)

  /** One `education` entry. */
  datatype Education = Education(institution: string, degree: string, duration: string)

  datatype Resume = Resume(
    personalInfo: PersonalInfo, summary: string,
    experience: seq<Position>, education: seq<Education>)

  /** How a template literal prints a property that may be `undefined`. */
  function Printed(v: Option<string>): string {
    match v
    case Some(s) => s
    case None => "undefined"
  }
}
