/** `LoginScreen.handleLogin`: the empty-credential guard and the error text
    the handler sets for each way `login` settles. Whether that text reaches
    the user depends on the screen still being mounted, which `App` decides. */
module LoginScreen {
  import opened Base
  import LoginApi
  import AuthContext

  const EnterCredentialsError := "Iltimos, foydalanuvchi nomi va parolni kiriting"
  const InvalidCredentialsError := "Foydalanuvchi nomi yoki parol noto'g'ri"
  const GenericError := "Tizimga kirishda xatolik yuz berdi"

  datatype LoginForm = LoginForm(username: string, password: string, isLoading: bool, error: string)

  /** The state a newly mounted screen starts with. */
  const InitialForm := LoginForm("", "", false, "")

  /** How the awaited `login(username, password)` settled. */
  datatype LoginCall = Resolved(success: bool) | Rejected

  /** The form after the synchronous part of `handleLogin`, and whether
      `login` was called. */
  datatype Submitted = Submitted(form: LoginForm, callsLogin: bool)

  function Submit(f: LoginForm): (r: Submitted)
    ensures r.callsLogin <==> f.username != "" && f.password != ""
    ensures !r.callsLogin ==> r.form == f.(error := EnterCredentialsError)
    ensures r.callsLogin ==> r.form == f.(isLoading := true, error := "")
  {
    if f.username == "" || f.password == "" then
      Submitted(f.(error := EnterCredentialsError), false)
    else
      Submitted(f.(isLoading := true).(error := ""), true)
  }

  /** The rest of `handleLogin` once `login` has settled; the `finally` drops
      the loading flag on every path. */
  function Finish(f: LoginForm, call: LoginCall): (r: LoginForm)
    ensures !r.isLoading
    ensures r.username == f.username && r.password == f.password
    ensures call == Resolved(true) ==> r.error == f.error
    ensures call == Resolved(false) ==> r.error == InvalidCredentialsError
    ensures call == Rejected ==> r.error == GenericError
  {
    match call
    case Resolved(success) =>
      if success then f.(isLoading := false)
      else f.(error := InvalidCredentialsError).(isLoading := false)
    case Rejected => f.(error := GenericError).(isLoading := false)
  }
}
