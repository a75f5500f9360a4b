/**
 * Submitting the new-appointment form. The form's controls are given as
 * their current text; the generated id and the parsed date come from code
 * outside the model and are parameters.
 */
module AppointmentForm {
  import opened AppointmentModel
  import opened AppointmentList
  import opened AppointmentStore

  /** The form is valid when the two required controls, title and date, are not empty. */
  predicate FormValid(title: string, dateInput: string) {
    title != "" && dateInput != ""
  }

  /**
   * A valid form adds one appointment carrying the generated id, the entered
   * title and description and the parsed date; an invalid one adds nothing.
   */
  method Submit(service: AppointmentService, title: string, dateInput: string,
                description: string, generatedId: string, parsedDate: Date)
    requires service.Valid()
    modifies service
    ensures service.Valid()
    ensures FormValid(title, dateInput) ==>
              service.Contents() ==
                old(service.Contents()) + [Appointment(generatedId, title, parsedDate, description)] &&
              service.log == old(service.log) + [service.Contents()] &&
              fresh(service.current)
    ensures !FormValid(title, dateInput) ==>
              service.current == old(service.current) &&
              service.Contents() == old(service.Contents()) &&
              service.log == old(service.log)
    ensures (FormValid(title, dateInput) && UniqueIds(old(service.Contents())) &&
             !HasId(old(service.Contents()), generatedId)) ==> UniqueIds(service.Contents())
  {
    if FormValid(title, dateInput) {
      service.AddAppointment(Appointment(generatedId, title, parsedDate, description));
    }
  }
}
