/** A row of the time log: the "Date", "Time", "What I Did" and "user_id"
    columns.  The date is kept as the text the log holds; date arithmetic is
    not part of this model. */
module TimeLog {
  datatype Entry = Entry(date: string, time: string, activity: string, userId: string)
}
