/** The one record type of the calendar: an appointment. */
module AppointmentModel {

  /** A point in time. Its representation and its parsing are outside the model. */
  type Date

  /** The fields the calendar reads from and writes back into an appointment. */
  datatype Appointment = Appointment(id: string, title: string, date: Date, description: string)
}
