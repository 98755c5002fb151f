/** The sign-up and login forms: the checks they run before calling the
    authentication provider, and the three-step feature tour shown beside them. */
module AuthForms {
  import opened Text

  /** What a submission does: show one error toast, or make one call. */
  datatype Submit =
    | Toast(message: string)
    | Register(email: string, password: string)
    | Login(email: string, password: string)

  const MinPasswordLength: nat := 8

  /** `handleSignup`: the first failing check's message, or the `register` call. The
      length is JavaScript's `length`, in UTF-16 code units. */
  function HandleSignup(email: string, password: string, confirmPassword: string): (r: Submit)
    ensures r.Register? <==>
              email != "" && password != "" && confirmPassword != ""
              && password == confirmPassword && Utf16Length(password) >= MinPasswordLength
    ensures r.Register? ==> r == Register(email, password)
    ensures !r.Register? ==> r.Toast?
  {
    if email == "" || password == "" || confirmPassword == "" then Toast("All fields are required")
    else if password != confirmPassword then Toast("Passwords do not match")
    else if Utf16Length(password) < MinPasswordLength then Toast("Password must be at least 8 characters long")
    else Register(email, password)
  }

  /** Only the first failing check is reported: an empty field hides a mismatch, and a
      mismatch hides a short password. */
  lemma SignupFirstFailureWins(email: string, password: string, confirmPassword: string)
    ensures (email == "" || password == "" || confirmPassword == "") ==>
              HandleSignup(email, password, confirmPassword) == Toast("All fields are required")
    ensures (email != "" && password != "" && confirmPassword != "" && password != confirmPassword) ==>
              HandleSignup(email, password, confirmPassword) == Toast("Passwords do not match")
    ensures (email != "" && password != "" && password == confirmPassword
             && Utf16Length(password) < MinPasswordLength) ==>
              HandleSignup(email, password, confirmPassword)
              == Toast("Password must be at least 8 characters long")
  {
  }

  /** `handleLogin`: an error when either field is empty, otherwise one `login` call
      with the fields as typed. */
  function HandleLogin(email: string, password: string): (r: Submit)
    ensures r.Login? <==> email != "" && password != ""
    ensures r.Login? ==> r.email == email && r.password == password
    ensures !r.Login? ==> r == Toast("Some fields are empty")
  {
    if email == "" || password == "" then Toast("Some fields are empty")
    else Login(email, password)
  }

  // -------------------------------------------------------------------- tour

  /** `tourSteps.length` on both pages. */
  const TourLength: int := 3

  /** JavaScript's `%`, which truncates toward zero. */
  function JsRem(a: int, b: int): (r: int)
    requires b > 0
    ensures a >= 0 ==> 0 <= r < b
    ensures a < 0 ==> -b < r <= 0
  {
    if a >= 0 then a % b else -((-a) % b)
  }

  /** `nextStep`. */
  function NextStep(s: int): int {
    JsRem(s + 1, TourLength)
  }

  /** `prevStep`. */
  function PrevStep(s: int): int {
    JsRem(s - 1 + TourLength, TourLength)
  }

  /** From a valid step, both moves land on a valid step, each undoes the other, and
      three steps forward come back to the start. */
  lemma TourSteps(s: int)
    requires 0 <= s < TourLength
    ensures 0 <= NextStep(s) < TourLength && 0 <= PrevStep(s) < TourLength
    ensures PrevStep(NextStep(s)) == s && NextStep(PrevStep(s)) == s
    ensures NextStep(NextStep(NextStep(s))) == s
  {
  }

  /** The step state of either form. */
  class Tour {
    var currentStep: int

    predicate Valid()
      reads this
    {
      0 <= currentStep < TourLength
    }

    constructor ()
      ensures Valid() && currentStep == 0
    {
      currentStep := 0;
    }

    method Next()
      requires Valid()
      modifies this
      ensures Valid() && currentStep == NextStep(old(currentStep))
    {
      TourSteps(currentStep);
      currentStep := NextStep(currentStep);
    }

    method Prev()
      requires Valid()
      modifies this
      ensures Valid() && currentStep == PrevStep(old(currentStep))
    {
      TourSteps(currentStep);
      currentStep := PrevStep(currentStep);
    }
  }
}
