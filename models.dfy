/** backend/db/db/models.py: the records the routes read and write. Only
    the columns the core uses are kept. */
module Models {
  import opened Wrappers

  datatype Role = Admin | Editor | Viewer

  datatype License = Basic | Teams | Enterprise

  /** `RoleEnum.value`. */
  function RoleValue(role: Role): (s: string)
    ensures s in ["Admin", "Editor", "Viewer"]
  {
    match role
    case Admin => "Admin"
    case Editor => "Editor"
    case Viewer => "Viewer"
  }

  /** `LicenseEnum.value`. */
  function LicenseValue(license: License): (s: string)
    ensures s in ["Basic", "Teams", "Enterprise"]
  {
    match license
    case Basic => "Basic"
    case Teams => "Teams"
    case Enterprise => "Enterprise"
  }

  /** A row of the `users` table; `reset_token` is nullable. */
  datatype User = User(email: string, hashedPassword: string, role: Role, license: License, resetToken: Option<string>)

  /** A row of the `language_translations` table. */
  datatype LanguageTranslation = LanguageTranslation(inputLang: string, outputLang: string, inputText: string, outputText: string)
}
